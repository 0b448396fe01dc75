/**
 * The browser session: the three `localStorage` keys that `authService.login`
 * writes and `logout` removes, the axios request interceptor that turns the
 * stored token into an `Authorization` header, and the response interceptor
 * that ends the session on a 401.
 */
module Session {
  import opened Wrappers
  import Utils

  type Storage = map<string, string>
  type Headers = map<string, string>

  const TokenKey := "token"
  const UsernameKey := "username"
  const RoleKey := "role"
  const SessionKeys: set<string> := {TokenKey, UsernameKey, RoleKey}
  const AuthorizationHeader := "Authorization"
  const LoginPath := "/login"

  /** `localStorage.getItem(key)`: `None` is `null`. */
  function GetItem(storage: Storage, key: string): (r: Option<string>)
    ensures r.Some? <==> key in storage
    ensures r.Some? ==> r.value == storage[key]
  {
    if key in storage then Some(storage[key]) else None
  }

  /** The body of a successful `POST /auth/login`. */
  datatype LoginResponse = LoginResponse(token: string, username: string, role: string)

  /** What `getCurrentUser()` returns. */
  datatype CurrentUser = CurrentUser(username: Option<string>, role: Option<string>, isAuthenticated: bool)

  /** The request interceptor: with a non-empty stored token the header is set, otherwise the headers pass as they are. */
  function WithAuthorization(storage: Storage, headers: Headers): (h: Headers)
    ensures TokenKey in storage && storage[TokenKey] != "" ==>
              AuthorizationHeader in h && h[AuthorizationHeader] == "Bearer " + storage[TokenKey]
    ensures !(TokenKey in storage && storage[TokenKey] != "") ==> h == headers
    ensures forall k :: k != AuthorizationHeader ==> (k in h <==> k in headers)
    ensures forall k :: k != AuthorizationHeader && k in headers ==> h[k] == headers[k]
  {
    match GetItem(storage, TokenKey)
    case Some(token) =>
      if token != "" then headers[AuthorizationHeader := "Bearer " + token] else headers
    case None => headers
  }

  /** `login` after the server answered: the three keys are written, the rest of the storage is kept. */
  function StoreLogin(storage: Storage, response: LoginResponse): (s: Storage)
    ensures s.Keys == storage.Keys + SessionKeys
    ensures s[TokenKey] == response.token && s[UsernameKey] == response.username && s[RoleKey] == response.role
    ensures forall k :: k in storage && k !in SessionKeys ==> s[k] == storage[k]
  {
    storage[TokenKey := response.token][UsernameKey := response.username][RoleKey := response.role]
  }

  /** `logout`, and the 401 branch of the response interceptor: the three keys are removed. */
  function ClearSession(storage: Storage): (s: Storage)
    ensures s.Keys == storage.Keys - SessionKeys
    ensures forall k :: k in s ==> s[k] == storage[k]
  {
    storage - SessionKeys
  }

  /** `getCurrentUser()`: authenticated exactly when a non-empty token is stored (`!!token`). */
  function CurrentUserOf(storage: Storage): (u: CurrentUser)
    ensures u.isAuthenticated <==> TokenKey in storage && storage[TokenKey] != ""
    ensures u.username == GetItem(storage, UsernameKey) && u.role == GetItem(storage, RoleKey)
  {
    var token := GetItem(storage, TokenKey);
    CurrentUser(GetItem(storage, UsernameKey), GetItem(storage, RoleKey), token.Some? && token.value != "")
  }

  /** After `login` the current user is the one the server named, authenticated unless the token was empty. */
  lemma LoginThenCurrentUser(storage: Storage, response: LoginResponse)
    ensures CurrentUserOf(StoreLogin(storage, response))
            == CurrentUser(Some(response.username), Some(response.role), response.token != "")
  {
  }

  /** After `logout` nobody is signed in, no request carries a token, and a second `logout` changes nothing. */
  lemma LogoutThenAnonymous(storage: Storage, headers: Headers)
    ensures CurrentUserOf(ClearSession(storage)) == CurrentUser(None, None, false)
    ensures WithAuthorization(ClearSession(storage), headers) == headers
    ensures ClearSession(ClearSession(storage)) == ClearSession(storage)
  {
  }

  /** A request carries the bearer header exactly when `getCurrentUser()` reports a signed-in user. */
  lemma AuthorizedIffAuthenticated(storage: Storage, headers: Headers)
    requires AuthorizationHeader !in headers
    ensures AuthorizationHeader in WithAuthorization(storage, headers) <==> CurrentUserOf(storage).isAuthenticated
  {
  }

  /** How an axios call settled. */
  datatype Settled = Fulfilled(response: Utils.HttpResponse) | Rejected(error: Utils.ClientError)

  /** `error.response?.status === 401`. */
  predicate IsUnauthorized(s: Settled)
    ensures s.Fulfilled? ==> !IsUnauthorized(s)
    ensures IsUnauthorized(s) ==> s.error.response.Some? && s.error.response.value.status == 401
  {
    s.Rejected? && s.error.response.Some? && s.error.response.value.status == 401
  }

  /** The part of the browser the session code touches: `localStorage` and `window.location.href`. */
  class Browser {
    var storage: Storage
    var location: string

    constructor (storage: Storage, location: string)
      ensures this.storage == storage && this.location == location
    {
      this.storage := storage;
      this.location := location;
    }

    function CurrentUser(): CurrentUser
      reads this
    {
      CurrentUserOf(storage)
    }

    /** The request interceptor: reads the token and sets `config.headers.Authorization`. */
    method InterceptRequest(headers: Headers) returns (h: Headers)
      ensures h == WithAuthorization(storage, headers)
    {
      h := headers;
      var token := GetItem(storage, TokenKey);
      if token.Some? && token.value != "" {
        h := h[AuthorizationHeader := "Bearer " + token.value];
      }
    }

    /**
     * The response interceptor: every outcome goes back to the caller as it
     * came; a 401 first ends the session and sends the browser to `/login`.
     */
    method InterceptResponse(s: Settled) returns (r: Settled)
      modifies this
      ensures r == s
      ensures IsUnauthorized(s) ==> storage == ClearSession(old(storage)) && location == LoginPath
      ensures !IsUnauthorized(s) ==> storage == old(storage) && location == old(location)
    {
      if s.Rejected? && s.error.response.Some? && s.error.response.value.status == 401 {
        storage := storage - {TokenKey};
        storage := storage - {UsernameKey};
        storage := storage - {RoleKey};
        location := LoginPath;
      }
      r := s;
    }

    /** `authService.login` once the server has answered. */
    method Login(response: LoginResponse) returns (r: LoginResponse)
      modifies this
      ensures r == response
      ensures storage == StoreLogin(old(storage), response) && location == old(location)
    {
      storage := storage[TokenKey := response.token];
      storage := storage[UsernameKey := response.username];
      storage := storage[RoleKey := response.role];
      r := response;
    }

    /** `authService.logout`. */
    method Logout()
      modifies this
      ensures storage == ClearSession(old(storage)) && location == old(location)
    {
      storage := storage - {TokenKey};
      storage := storage - {UsernameKey};
      storage := storage - {RoleKey};
    }
  }
}
