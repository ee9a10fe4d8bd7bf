/**
  The Rack middleware that guards the broker's user interface.

  A request is let through to the wrapped application when its path is
  public, when its session holds a user, or when the credentials in its
  `Authorization` header are accepted. Otherwise the browser is sent to the
  OpenID Connect login when that is enabled, and challenged for Basic
  authentication when it is not.
*/
module UIAuthentication {
  import opened Wrappers

  /** The session stored under `rack.session`; `user` is absent when it is nil or false. */
  datatype Session = Session(user: Option<string>)

  /** The parts of the Rack environment the middleware consults. */
  datatype Env = Env(
    pathInfo: string,                // PATH_INFO
    session: Option<Session>,        // rack.session
    authorization: Option<string>)   // HTTP_AUTHORIZATION

  /** A Rack response triple: status, headers and body parts. */
  datatype Response = Response(status: int, headers: map<string, string>, body: seq<string>)

  /** Where a denied request is sent when OpenID Connect is enabled. */
  const LoginPath: string := "/auth/openid_connect"

  const LoginRedirect: Response := Response(302, map["Location" := LoginPath], [])

  const BasicChallenge: Response :=
    Response(401, map["WWW-Authenticate" := "Basic realm=\"Restricted Area\""], [])

  predicate StartsWith(s: string, prefix: string)
  {
    prefix <= s
  }

  /** Login callbacks under `/auth/` and anything under `/logout` need no authentication. */
  predicate PublicResource(env: Env)
  {
    StartsWith(env.pathInfo, "/auth/") || StartsWith(env.pathInfo, "/logout")
  }

  predicate SessionAuthenticated(env: Env)
  {
    env.session.Some? && env.session.value.user.Some?
  }

  /**
    Whether the request may reach the application. `authenticated` is the
    broker's credential check, applied to the `Authorization` header.
  */
  predicate Allowed(env: Env, authenticated: Option<string> -> bool)
  {
    PublicResource(env) || SessionAuthenticated(env) || authenticated(env.authorization)
  }

  /**
    Handles one request: the application's own response when allowed, and
    otherwise the login redirect or the Basic challenge, by `oidcEnabled`.
  */
  function Call(app: Env -> Response, env: Env, oidcEnabled: bool,
                authenticated: Option<string> -> bool): (r: Response)
    ensures Allowed(env, authenticated) ==> r == app(env)
    ensures !Allowed(env, authenticated) && oidcEnabled ==> r == LoginRedirect
    ensures !Allowed(env, authenticated) && !oidcEnabled ==> r == BasicChallenge
  {
    if Allowed(env, authenticated) then app(env)
    else if oidcEnabled then LoginRedirect
    else BasicChallenge
  }

  // ---------------------------------------------------------------------------
  // Properties of the gate
  // ---------------------------------------------------------------------------

  /**
    A public path reaches the application with the environment as it came,
    whatever the session holds and whatever the credential check would say.
  */
  lemma PublicPathBypassesChecks(app: Env -> Response, env: Env, oidcEnabled: bool,
                                 authenticated: Option<string> -> bool, session: Option<Session>)
    requires PublicResource(env)
    ensures Call(app, env, oidcEnabled, authenticated) == app(env)
    ensures Allowed(env.(session := session), authenticated)
    ensures Allowed(env, _ => false)
  {
  }

  /** A session that holds a user lets the request through, whatever its credentials. */
  lemma SessionUserAllows(app: Env -> Response, env: Env, oidcEnabled: bool,
                          authenticated: Option<string> -> bool)
    requires env.session.Some? && env.session.value.user.Some?
    ensures Call(app, env, oidcEnabled, authenticated) == app(env)
  {
  }

  /**
    Without a public path and without a session user, the decision is the
    credential check's verdict on the `Authorization` header alone.
  */
  lemma NoSessionFallsToCredentials(env: Env, authenticated: Option<string> -> bool)
    requires !PublicResource(env)
    requires env.session.None? || env.session.value.user.None?
    ensures Allowed(env, authenticated) <==> authenticated(env.authorization)
  {
  }

  /** A denied request never reaches the application and gets an empty body. */
  lemma DeniedResponses(app: Env -> Response, env: Env, oidcEnabled: bool,
                        authenticated: Option<string> -> bool)
    requires !Allowed(env, authenticated)
    ensures var r := Call(app, env, oidcEnabled, authenticated);
      r.body == [] &&
      (oidcEnabled ==> r.status == 302 && r.headers == map["Location" := "/auth/openid_connect"]) &&
      (!oidcEnabled ==> r.status == 401 && r.headers == map["WWW-Authenticate" := "Basic realm=\"Restricted Area\""])
  {
  }

  /**
    The login redirect points at a public path, so a browser that follows it
    is always let through, with or without a session or credentials.
  */
  lemma RedirectTargetIsPublic(app: Env -> Response, env: Env, oidcEnabled: bool,
                               authenticated: Option<string> -> bool)
    requires env.pathInfo == LoginRedirect.headers["Location"]
    ensures PublicResource(env)
    ensures Call(app, env, oidcEnabled, authenticated) == app(env)
  {
    assert StartsWith(env.pathInfo, "/auth/");
  }

  /**
    The two public prefixes differ: `/auth` needs its trailing slash, while
    `/logout` matches any path that begins with it.
  */
  lemma PublicPrefixes(env: Env)
    ensures env.pathInfo == "/auth" ==> !PublicResource(env)
    ensures env.pathInfo == "/logout-everywhere" ==> PublicResource(env)
    ensures env.pathInfo == "/authors" ==> !PublicResource(env)
  {
    if env.pathInfo == "/auth" {
      assert !StartsWith(env.pathInfo, "/logout") by {
        assert env.pathInfo[1] != "/logout"[1];
      }
    }
    if env.pathInfo == "/logout-everywhere" {
      assert env.pathInfo[..7] == "/logout";
    }
    if env.pathInfo == "/authors" {
      assert env.pathInfo[5] != "/auth/"[5];
      assert env.pathInfo[1] != "/logout"[1];
    }
  }

  /**
    A more accepting credential check can only let more through: whatever one
    check admits, a check that accepts every header the first accepts admits too.
  */
  lemma AllowedIsMonotone(env: Env, a1: Option<string> -> bool, a2: Option<string> -> bool)
    requires forall h :: a1(h) ==> a2(h)
    ensures Allowed(env, a1) ==> Allowed(env, a2)
  {
  }
}
