/** The browser-side session (app/services/authService.ts): the token and
    the user kept in local storage, and how login, logout and token refresh
    change them. */
module AuthService {
  import opened Common

  /** Local storage: key to stored text. */
  type Storage = map<string, string>

  const TokenKey := "authToken"
  const UserKey := "user"

  const MsgLoginFailed := "Đăng nhập thất bại"
  const MsgRefreshFailed := "Token refresh failed"
  const RefreshedPrefix := "refreshed-jwt-token-"

  /** What `localStorage.setItem` stores for `undefined`. */
  const UndefinedText := "undefined"

  /** A call either returns a value or throws an `Error` with a message. */
  datatype Outcome<+T> = Returned(value: T) | Threw(message: string)

  /** The login endpoint's reply as `login` sees it: the request itself
      failed, the body is not JSON, or a JSON body with its `error`,
      `token` and `user` properties (the user as `JSON.stringify` prints
      it). */
  datatype Answer =
    | Unreachable(message: string)
    | Answered(ok: bool, body: Body)

  datatype Body = Unparsable(message: string) | Data(error: Option<string>, token: Option<string>, user: Option<string>)

  /** What `login` resolves to: the user's JSON text and the token. */
  datatype Session = Session(user: Option<string>, token: Option<string>)

  /** `setItem` of a value that may be `undefined`. */
  function Stored(o: Option<string>): string {
    if o.Some? then o.value else UndefinedText
  }

  /** `login`: the storage afterwards and the outcome. Storage is written
      only after an OK reply. */
  function Login(store: Storage, answer: Answer): (r: (Storage, Outcome<Session>))
    ensures r.1.Threw? <==> r.0 == store && !(answer.Answered? && answer.ok && answer.body.Data?)
    ensures answer.Answered? && !answer.ok && answer.body.Data? ==>
              r.1 == Threw(OrElse(answer.body.error, MsgLoginFailed))
    ensures r.1.Returned? ==>
              && answer.Answered? && answer.ok && answer.body.Data?
              && r.0 == store[TokenKey := Stored(answer.body.token)][UserKey := Stored(answer.body.user)]
              && r.1.value == Session(answer.body.user, answer.body.token)
  {
    match answer
    case Unreachable(m) => (store, Threw(m))
    case Answered(ok, body) =>
      match body
      case Unparsable(m) => (store, Threw(m))
      case Data(error, token, user) =>
        if !ok then (store, Threw(OrElse(error, MsgLoginFailed)))
        else (store[TokenKey := Stored(token)][UserKey := Stored(user)], Returned(Session(user, token)))
  }

  /** `logout`. */
  function Logout(store: Storage): (r: Storage)
    ensures TokenKey !in r && UserKey !in r
    ensures forall k | k in store && k != TokenKey && k != UserKey :: k in r && r[k] == store[k]
    ensures r.Keys <= store.Keys
  {
    store - {TokenKey, UserKey}
  }

  /** JavaScript truthiness of a parsed JSON value. */
  predicate JsTruthy(v: Value) {
    match v
    case Int(i) => i != 0
    case Str(s) => s != ""
    case Nil => false
    case Json(text) => text != "false"
  }

  /** `getToken`: the stored token, `None` for `null`. */
  function Token(store: Storage): Option<string> {
    if TokenKey in store then Some(store[TokenKey]) else None
  }

  /** `getCurrentUser`; `parse` is `JSON.parse`, `None` where it throws.
      `Nil` stands for the `null` it returns. */
  function CurrentUser(store: Storage, parse: string -> Option<Value>): (r: Value)
    ensures UserKey !in store || store[UserKey] == "" ==> r == Nil
    ensures UserKey in store && parse(store[UserKey]).None? ==> r == Nil
    ensures r != Nil ==> UserKey in store && parse(store[UserKey]) == Some(r)
  {
    if UserKey !in store || store[UserKey] == "" then Nil
    else match parse(store[UserKey])
      case None => Nil
      case Some(v) => v
  }

  /** `isAuthenticated`: a non-empty token and a truthy parsed user. */
  function IsAuthenticated(store: Storage, parse: string -> Option<Value>): (r: bool)
    ensures r <==> Truthy(Token(store)) && UserKey in store && store[UserKey] != ""
                   && parse(store[UserKey]).Some? && JsTruthy(parse(store[UserKey]).value)
  {
    Truthy(Token(store)) && JsTruthy(CurrentUser(store, parse))
  }

  /** `refreshToken`: a demo token stamped with the clock; without a token
      the session is cleared and the call throws. */
  function RefreshToken(store: Storage, now: nat): (r: (Storage, Outcome<string>))
    ensures !Truthy(Token(store)) ==> r == (Logout(store), Threw(MsgRefreshFailed))
    ensures Truthy(Token(store)) ==>
              && r.1.Returned? && RefreshedPrefix <= r.1.value
              // the rest of the token is the clock reading, in decimal
              && var digits := r.1.value[|RefreshedPrefix|..];
              && (forall k | 0 <= k < |digits| :: IsDigit(digits[k])) && DigitsValue(digits) == now
              && r.0 == store[TokenKey := r.1.value]
  {
    if !Truthy(Token(store)) then (Logout(store), Threw(MsgRefreshFailed))
    else
      var renewed := RefreshedPrefix + DecimalString(now);
      DecimalRoundTrip(now);
      assert renewed[|RefreshedPrefix|..] == DecimalString(now);
      (store[TokenKey := renewed], Returned(renewed))
  }

  /** `validateToken`: whether a non-empty token is stored. */
  function ValidateToken(store: Storage): (r: bool)
    ensures r <==> TokenKey in store && store[TokenKey] != ""
  {
    Truthy(Token(store))
  }

  // ---------------------------------------------------------------------
  // Properties of the session
  // ---------------------------------------------------------------------

  /** After a successful login that returned a token and a user object, the
      session counts as authenticated. */
  lemma LoginAuthenticates(store: Storage, token: string, user: string, error: Option<string>,
                           parse: string -> Option<Value>)
    requires token != "" && user != "" && parse(user).Some? && JsTruthy(parse(user).value)
    ensures var (s, out) := Login(store, Answered(true, Data(error, Some(token), Some(user))));
            out.Returned? && IsAuthenticated(s, parse) && CurrentUser(s, parse) == parse(user).value
  {
  }

  /** An OK reply without a token still authenticates: the text
      "undefined" is stored in its place and is truthy. */
  lemma MissingTokenStillAuthenticates(store: Storage, user: string, error: Option<string>,
                                       parse: string -> Option<Value>)
    requires user != "" && parse(user).Some? && JsTruthy(parse(user).value)
    ensures var (s, out) := Login(store, Answered(true, Data(error, None, Some(user))));
            IsAuthenticated(s, parse) && Token(s) == Some(UndefinedText)
  {
  }

  /** After logout nobody is authenticated, and keys other than the two
      session keys are untouched. */
  lemma LogoutUnauthenticates(store: Storage, parse: string -> Option<Value>)
    ensures !IsAuthenticated(Logout(store), parse)
    ensures !ValidateToken(Logout(store))
    ensures Logout(store) == map k | k in store && k !in {TokenKey, UserKey} :: store[k]
  {
  }

  /** A refresh keeps an authenticated session authenticated and the user
      unchanged. */
  lemma RefreshKeepsSession(store: Storage, now: nat, parse: string -> Option<Value>)
    requires IsAuthenticated(store, parse)
    ensures var (s, out) := RefreshToken(store, now);
            && out.Returned? && IsAuthenticated(s, parse)
            && CurrentUser(s, parse) == CurrentUser(store, parse)
  {
  }

  /** A failed login leaves an existing session as it was. */
  lemma FailedLoginKeepsSession(store: Storage, answer: Answer, parse: string -> Option<Value>)
    requires Login(store, answer).1.Threw?
    ensures IsAuthenticated(Login(store, answer).0, parse) == IsAuthenticated(store, parse)
  {
  }
}
