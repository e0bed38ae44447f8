/**
 Whether an API invocation is authorized: who the caller is comes from the socket, the access token
 or a test header, and the decision combines the caller's type, the elevation asked for, and scopes.

 Token decoding and the account directory are parameters: maps from tokens and user names.
 */
module Authorization {
  import opened Options
  import opened Text
  import opened Scopes

  datatype AuthorizationType = Administrator | User | App

  datatype Grant = Grant(
    kind: AuthorizationType,
    username: Option<string>,
    clientId: Option<string>,
    scopes: Option<seq<string>>)

  datatype DecodedToken = DecodedToken(username: Option<string>, scope: Option<string>, clientId: Option<string>)

  datatype Account = Account(username: string, enabled: bool, role: Option<string>)

  datatype Error =
    | UnauthorizedAccess
    | UserDisabled
    | TokenRejected            // decoding raised
    | UnknownUser              // the directory has no such user
    | ServiceMissing           // the invocation was created without the service it needs

  predicate Falsy(s: Option<string>) {
    s.None? || s.value == ""
  }

  // ----- The authorization service -----

  function GetAuthorizationType(role: Option<string>): AuthorizationType {
    if role == Some("admin") then Administrator else User
  }

  function GrantOf(token: DecodedToken, accounts: map<string, Account>): Result<Grant, Error> {
    if Falsy(token.username) then
      var scopes := if Falsy(token.scope) then None else Some(Split(token.scope.value));
      Ok(Grant(App, token.username, token.clientId, scopes))
    else if token.username.value !in accounts then Err(UnknownUser)
    else
      var account := accounts[token.username.value];
      if !account.enabled then Err(UserDisabled)
      else Ok(Grant(GetAuthorizationType(account.role), Some(account.username), token.clientId, None))
  }

  function TokenHasScope(token: DecodedToken, scope: string, accounts: map<string, Account>): Result<bool, Error> {
    if scope == "" then Ok(false)
    else
      var grant := GrantOf(token, accounts);
      if grant.Err? then Err(grant.error)
      else Ok(grant.value.kind == App && grant.value.scopes.Some? && scope in grant.value.scopes.value)
  }

  // ----- The invocation -----

  /** What an invocation is created with. A missing service is None. */
  datatype Invocation = Invocation(
    unixSocket: bool,
    tokenType: Option<string>,
    token: Option<string>,
    tokens: Option<map<string, DecodedToken>>,
    accounts: Option<map<string, Account>>,
    testMode: bool,
    testUsername: Option<string>,
    moduleId: string,
    administrator: string)
  {
    function AccessToken(): Option<string> {
      if tokenType == Some("Bearer") then token else None
    }

    predicate HasAccessToken() {
      AccessToken().Some? && !IsBlank(AccessToken().value)
    }

    function Decode(): Result<DecodedToken, Error>
      requires HasAccessToken()
    {
      if tokens.None? then Err(ServiceMissing)
      else if AccessToken().value !in tokens.value then Err(TokenRejected)
      else Ok(tokens.value[AccessToken().value])
    }

    /** The same invocation, if it had only its access token to show. */
    function TokenOnly(): Invocation {
      this.(unixSocket := false, testMode := false)
    }

    /** The caller's grant: the socket first, then the token, then the test header. */
    function Authorize(): Result<Grant, Error> {
      if unixSocket then Ok(Grant(Administrator, Some(administrator), None, None))
      else if HasAccessToken() then
        var decoded := Decode();
        if decoded.Err? then Err(decoded.error)
        else if accounts.None? then Err(ServiceMissing)
        else GrantOf(decoded.value, accounts.value)
      else if testMode then
        if Falsy(testUsername) then Err(UnauthorizedAccess)
        else if accounts.None? then Err(ServiceMissing)
        else if testUsername.value !in accounts.value then Err(UnknownUser)
        else Ok(Grant(GetAuthorizationType(accounts.value[testUsername.value].role), testUsername, None, None))
      else Err(UnauthorizedAccess)
    }
  }

  // ----- The decision as one formula -----

  function ScopeSet(scopes: Option<seq<string>>): set<string> {
    if scopes.None? then {} else set s | s in scopes.value
  }

  predicate ModuleScopes(granted: set<string>, moduleId: string) {
    moduleId + "/read" in granted || moduleId + "/write" in granted
  }

  /** Administrators always; users without elevation; apps with module access that hold every requested scope. */
  predicate Allowed(grant: Grant, moduleId: string, elevated: bool, scopes: Option<seq<string>>) {
    match grant.kind
    case Administrator => true
    case User => !elevated
    case App =>
      && ScopeSet(scopes) != {}
      && ScopeSet(scopes) <= ScopeSet(grant.scopes) - {""}
      && ModuleScopes(ScopeSet(grant.scopes), moduleId)
  }

  /** The object behind an invocation, with its two memoised fields. */
  class ApiInvocationContext {
    const invocation: Invocation
    var decodedToken: Option<DecodedToken>
    var authorization: Option<Grant>

    ghost predicate Valid()
      reads this
    {
      && (decodedToken.Some? ==> invocation.HasAccessToken() && invocation.Decode() == Ok(decodedToken.value))
      && (authorization.Some? ==> invocation.Authorize() == Ok(authorization.value))
    }

    constructor (invocation: Invocation)
      ensures Valid() && this.invocation == invocation
    {
      this.invocation := invocation;
      decodedToken, authorization := None, None;
    }

    /** Nothing without an access token; a decoded token is remembered, an error is not. */
    method GetDecodedToken() returns (r: Result<Option<DecodedToken>, Error>)
      requires Valid()
      modifies this`decodedToken
      ensures Valid()
      ensures r == Ok(None) <==> !invocation.HasAccessToken()
      ensures invocation.HasAccessToken() ==> match r {
        case Ok(token) => token == decodedToken && token.Some? && invocation.Decode() == Ok(token.value)
        case Err(e) => invocation.Decode() == Err(e) && decodedToken == old(decodedToken)
      }
    {
      if decodedToken.Some? {
        return Ok(decodedToken);
      }
      if !invocation.HasAccessToken() {
        return Ok(None);
      }
      var decoded := invocation.Decode();
      if decoded.Err? {
        return Err(decoded.error);
      }
      decodedToken := Some(decoded.value);
      r := Ok(decodedToken);
    }

    /** The grant is computed once and remembered; an error is not. */
    method GetAuthorization() returns (r: Result<Grant, Error>)
      requires Valid()
      modifies this
      ensures Valid() && r == invocation.Authorize()
      ensures r.Ok? ==> authorization == Some(r.value)
    {
      if authorization.Some? {
        return Ok(authorization.value);
      }
      if invocation.unixSocket {
        r := Ok(Grant(Administrator, Some(invocation.administrator), None, None));
      } else if invocation.HasAccessToken() {
        var decoded := GetDecodedToken();
        if decoded.Err? {
          return Err(decoded.error);
        }
        if invocation.accounts.None? {
          return Err(ServiceMissing);
        }
        r := GrantOf(decoded.value.value, invocation.accounts.value);
      } else if invocation.testMode {
        if Falsy(invocation.testUsername) {
          return Err(UnauthorizedAccess);
        }
        var username := invocation.testUsername.value;
        if invocation.accounts.None? {
          return Err(ServiceMissing);
        }
        if username !in invocation.accounts.value {
          return Err(UnknownUser);
        }
        var account := invocation.accounts.value[username];
        r := Ok(Grant(GetAuthorizationType(account.role), Some(username), None, None));
      } else {
        return Err(UnauthorizedAccess);
      }
      if r.Ok? {
        authorization := Some(r.value);
      }
    }

    /**
     Whether the access token, on its own, is one of an app that was granted the scope. The token is
     decoded anew every time; an error is one that its grant would give.
     */
    method IsScopeAuthorized(scope: string) returns (r: Result<bool, Error>)
      ensures r == Ok(true) <==>
        var grant := invocation.TokenOnly().Authorize();
        grant.Ok? && grant.value.kind == App && scope in ScopeSet(grant.value.scopes) - {""}
      ensures r.Err? ==> invocation.TokenOnly().Authorize() == Err(r.error)
      ensures r.Err? <==> invocation.HasAccessToken() && invocation.accounts.Some? && invocation.tokens.Some?
                          && invocation.TokenOnly().Authorize().Err? && (scope != "" || invocation.Decode().Err?)
    {
      if !invocation.HasAccessToken() {
        return Ok(false);
      }
      if invocation.accounts.None? || invocation.tokens.None? {
        return Ok(false);
      }
      var decoded := invocation.Decode();
      if decoded.Err? {
        return Err(decoded.error);
      }
      r := TokenHasScope(decoded.value, scope, invocation.accounts.value);
    }

    method IsAuthorizedApp(grant: Grant) returns (authorized: bool)
      ensures authorized <==> grant.kind == App && ModuleScopes(ScopeSet(grant.scopes), invocation.moduleId)
    {
      if grant.kind != App {
        return false;
      }
      if grant.scopes.None? || |grant.scopes.value| == 0 {
        return false;
      }
      var readScope, writeScope := invocation.moduleId + "/read", invocation.moduleId + "/write";
      var scopes := grant.scopes.value;
      for k := 0 to |scopes|
        invariant readScope !in scopes[..k] && writeScope !in scopes[..k]
      {
        if scopes[k] == readScope || scopes[k] == writeScope {
          return true;
        }
      }
      assert scopes[..|scopes|] == scopes;
      authorized := false;
    }

    /** The decision: the caller's error if there is one, else the formula. */
    method IsAuthorized(elevated: bool, scopes: Option<seq<string>>) returns (r: Result<bool, Error>)
      requires Valid()
      modifies this
      ensures Valid()
      ensures r == match invocation.Authorize() {
        case Err(e) => Err(e)
        case Ok(grant) => Ok(Allowed(grant, invocation.moduleId, elevated, scopes))
      }
    {
      var authorization := GetAuthorization();
      if authorization.Err? {
        return Err(authorization.error);
      }
      var grant := authorization.value;
      var authorizedUser := grant.kind == Administrator || (!elevated && grant.kind == User);
      var authorizedScopes := false;
      if scopes.Some? && |scopes.value| > 0 {
        assert scopes.value[0] in ScopeSet(scopes);
        var authorizedApp := IsAuthorizedApp(grant);
        if authorizedApp {
          AppsComeFromTokens(invocation);
          var allScopesAuthorized := true;
          for k := 0 to |scopes.value|
            invariant Valid()
            invariant forall s | s in scopes.value[..k] :: s in ScopeSet(grant.scopes) - {""}
          {
            var scope := IsScopeAuthorized(scopes.value[k]);
            // An error would be the caller's, but the token has already been decoded successfully.
            if scope != Ok(true) {
              allScopesAuthorized := false;
              assert scopes.value[k] in ScopeSet(scopes);
              break;
            }
          }
          assert scopes.value[..|scopes.value|] == scopes.value;
          authorizedScopes := allScopesAuthorized;
        }
      }
      r := Ok(authorizedUser || authorizedScopes);
    }
  }

  /** Only a token makes an app, and the token says the same again when its scopes are asked for. */
  lemma AppsComeFromTokens(i: Invocation)
    requires i.Authorize().Ok? && i.Authorize().value.kind == App
    ensures i.HasAccessToken() && i.accounts.Some? && i.tokens.Some? && i.Decode().Ok?
    ensures forall s :: TokenHasScope(i.Decode().value, s, i.accounts.value)
                     == Ok(s in ScopeSet(i.Authorize().value.scopes) - {""})
  {
  }

  // ----- The decision from the invocation alone -----

  /** The invocation carries a token that counts: a bearer token that is not blank. */
  predicate ShowsToken(i: Invocation) {
    i.tokenType == Some("Bearer") && i.token.Some? && exists c :: c in i.token.value && c !in SPACES
  }

  predicate AccountAllows(accounts: map<string, Account>, username: string, elevated: bool) {
    username in accounts && (elevated ==> accounts[username].role == Some("admin"))
  }

  /** A decoded token allows an enabled account as such, and a client by its scopes. */
  predicate TokenAllows(token: DecodedToken, accounts: map<string, Account>, moduleId: string, elevated: bool,
                        requested: set<string>)
  {
    if token.username == None || token.username == Some("") then
      var granted :=
        if token.scope == None || token.scope == Some("") then {} else ScopeSet(Some(Split(token.scope.value)));
      {} < requested <= granted - {""} && (moduleId + "/read" in granted || moduleId + "/write" in granted)
    else
      AccountAllows(accounts, token.username.value, elevated) && accounts[token.username.value].enabled
  }

  /**
   Access is given exactly through the socket; or through a token that decodes and allows it; or, only
   without a token and in test mode, to the account in the header, which need not be enabled.
   */
  lemma DecisionExactly(i: Invocation, elevated: bool, scopes: Option<seq<string>>)
    ensures i.Authorize().Ok? && Allowed(i.Authorize().value, i.moduleId, elevated, scopes) <==>
      || i.unixSocket
      || (i.accounts.Some? && ShowsToken(i) && i.tokens.Some? && i.token.value in i.tokens.value
          && TokenAllows(i.tokens.value[i.token.value], i.accounts.value, i.moduleId, elevated, ScopeSet(scopes)))
      || (i.accounts.Some? && !ShowsToken(i) && i.testMode && i.testUsername.Some? && i.testUsername.value != ""
          && AccountAllows(i.accounts.value, i.testUsername.value, elevated))
  {
    TokenCountsExactly(i);
    if !i.unixSocket && i.HasAccessToken() && i.Decode().Ok? && i.accounts.Some? {
      TokenDecisionExactly(i.Decode().value, i.accounts.value, i.moduleId, elevated, scopes);
    }
  }

  lemma TokenCountsExactly(i: Invocation)
    ensures i.HasAccessToken() <==> ShowsToken(i)
    ensures i.HasAccessToken() ==> i.AccessToken() == i.token
  {
  }

  /** A token of any other type, or a blank one, makes no difference at all, errors included. */
  lemma OtherTokensAreIgnored(i: Invocation)
    requires !ShowsToken(i)
    ensures i.Authorize() == i.(token := None).Authorize()
    ensures i.Authorize().Ok? ==> i.Authorize().value.kind != App
  {
    TokenCountsExactly(i);
    TokenCountsExactly(i.(token := None));
  }

  /** What is raised: exactly when, in terms of the fields. */
  lemma ErrorsExactly(i: Invocation)
    ensures i.Authorize() == Err(ServiceMissing) <==>
      && !i.unixSocket
      && (|| (ShowsToken(i) && (i.tokens.None? || (i.token.value in i.tokens.value && i.accounts.None?)))
          || (!ShowsToken(i) && i.testMode && i.testUsername.Some? && i.testUsername.value != "" && i.accounts.None?))
    ensures i.Authorize() == Err(TokenRejected) <==>
      !i.unixSocket && ShowsToken(i) && i.tokens.Some? && i.token.value !in i.tokens.value
    ensures i.Authorize() == Err(UnauthorizedAccess) <==>
      !i.unixSocket && !ShowsToken(i) && (i.testMode ==> i.testUsername == None || i.testUsername == Some(""))
    ensures i.Authorize() == Err(UserDisabled) <==>
      && !i.unixSocket && ShowsToken(i) && i.tokens.Some? && i.token.value in i.tokens.value && i.accounts.Some?
      && var username := i.tokens.value[i.token.value].username;
         username.Some? && username.value != ""
         && username.value in i.accounts.value && !i.accounts.value[username.value].enabled
  {
    TokenCountsExactly(i);
  }

  /** In whose name the caller acts; only apps hold scopes. */
  lemma CallerIsNamedExactly(i: Invocation)
    requires i.Authorize().Ok?
    ensures i.Authorize().value.kind != App ==> i.Authorize().value.scopes == None
    ensures var grant := i.Authorize().value;
      if i.unixSocket then grant.username == Some(i.administrator) && grant.clientId == None
      else if !ShowsToken(i) then grant.username == i.testUsername && grant.clientId == None
      else
        && i.accounts.Some? && i.tokens.Some? && i.token.value in i.tokens.value
        && var token := i.tokens.value[i.token.value];
           && grant.clientId == token.clientId
           && if grant.kind == App then grant.username == token.username
              else token.username.Some? && token.username.value in i.accounts.value
                   && grant.username == Some(i.accounts.value[token.username.value].username)
  {
    TokenCountsExactly(i);
  }

  /** In test mode even an account that is not enabled is allowed. */
  lemma DisabledAccountAllowedInTestMode()
    ensures var eve := Account("eve", false, None);
      var i := Invocation(false, None, None, None, Some(map["eve" := eve]), true, Some("eve"), "scheduler", "admin");
      && i.Authorize().Ok? && Allowed(i.Authorize().value, "scheduler", false, None)
      && GrantOf(DecodedToken(Some("eve"), None, None), i.accounts.value) == Err(UserDisabled)
  {
  }

  lemma TokenDecisionExactly(token: DecodedToken, accounts: map<string, Account>, moduleId: string, elevated: bool,
                             scopes: Option<seq<string>>)
    ensures GrantOf(token, accounts).Ok? && Allowed(GrantOf(token, accounts).value, moduleId, elevated, scopes)
       <==> TokenAllows(token, accounts, moduleId, elevated, ScopeSet(scopes))
  {
  }

  // ----- What follows from the formula -----

  /** Access with elevation implies access without. */
  lemma ElevatedImpliesPlain(grant: Grant, moduleId: string, scopes: Option<seq<string>>)
    requires Allowed(grant, moduleId, true, scopes)
    ensures Allowed(grant, moduleId, false, scopes)
  {
  }

  /**
   Granting more scopes, or asking for some of the scopes only, never revokes access, except that an
   app has to ask for at least one.
   */
  lemma GrantingMoreNeverRevokes(grant: Grant, more: Grant, moduleId: string, elevated: bool,
                                 scopes: Option<seq<string>>, fewer: Option<seq<string>>)
    requires Allowed(grant, moduleId, elevated, scopes)
    requires more.kind == grant.kind && ScopeSet(grant.scopes) <= ScopeSet(more.scopes)
    requires ScopeSet(fewer) <= ScopeSet(scopes)
    ensures Allowed(more, moduleId, elevated, fewer) <==> !(grant.kind == App && ScopeSet(fewer) == {})
  {
  }

  /** An app is granted exactly the scopes its client joined, exactly when these are space-free and not all empty. */
  lemma AppHoldsJoinedScopesExactly(xs: seq<string>, clientId: Option<string>, accounts: map<string, Account>)
    ensures GrantOf(DecodedToken(None, Some(Join(xs)), clientId), accounts) == Ok(Grant(App, None, clientId, Some(xs)))
       <==> Join(xs) != "" && forall x | x in xs :: SpaceFree(x)
  {
    SplitInvertsJoinExactly(xs);
  }

  /** A client that joins space-free scopes is allowed what it asks for exactly when it asks for some of them. */
  lemma ClientIsAllowedExactly(xs: seq<string>, clientId: Option<string>, accounts: map<string, Account>,
                               moduleId: string, elevated: bool, scopes: Option<seq<string>>)
    requires Join(xs) != "" && forall x | x in xs :: SpaceFree(x)
    ensures var grant := GrantOf(DecodedToken(None, Some(Join(xs)), clientId), accounts);
      && grant.Ok?
      && (Allowed(grant.value, moduleId, elevated, scopes) <==>
          {} < ScopeSet(scopes) <= ScopeSet(Some(xs)) - {""} && ModuleScopes(ScopeSet(Some(xs)), moduleId))
  {
    AppHoldsJoinedScopesExactly(xs, clientId, accounts);
  }
}
