/**
 * How prisma.config.ts finds the database connection string: an explicit
 * `DATABASE_URL` wins; otherwise one is composed from the `DB_*` variables;
 * having neither is a configuration error.  The environment is a record of
 * optional strings (`None` for an unset variable).
 */
module DatabaseUrl {
  import opened Common
  import Strings

  datatype Env = Env(
    databaseUrl: Option<string>,
    dbHost: Option<string>,
    dbPort: Option<string>,
    dbName: Option<string>,
    dbUser: Option<string>,
    dbPassword: Option<string>)

  const Scheme: string := "postgresql://"

  const ConfigError: string := "DATABASE_URL (or DB_HOST/DB_PORT/DB_NAME/DB_USER) is required for Prisma."

  /** The four variables a composed URL needs are all set and non-empty. */
  predicate HasComponents(env: Env) {
    Truthy(env.dbHost) && Truthy(env.dbPort) && Truthy(env.dbName) && Truthy(env.dbUser)
  }

  /** `user` or `user:password`, the password only when it is non-empty. */
  function UserInfo(user: string, password: Option<string>): string {
    if Truthy(password) then user + ":" + password.value else user
  }

  function HostPart(host: string, port: string, name: string): string {
    host + ":" + port + "/" + name
  }

  /** `postgresql://<userinfo>@<host>:<port>/<name>`. */
  function ComposedUrl(env: Env): (r: string)
    requires HasComponents(env)
    ensures Strings.StartsWith(r, Scheme + env.dbUser.value)
  {
    var r := Scheme + UserInfo(env.dbUser.value, env.dbPassword) + "@" + HostPart(env.dbHost.value, env.dbPort.value, env.dbName.value);
    assert r[..|Scheme + env.dbUser.value|] == Scheme + env.dbUser.value;
    r
  }

  /** `process.env.DATABASE_URL ?? (components ? composed : undefined)`. */
  function ResolveUrl(env: Env): (r: Option<string>)
    ensures env.databaseUrl.Some? ==> r == env.databaseUrl
    ensures env.databaseUrl.None? ==> (r.Some? <==> HasComponents(env))
    ensures env.databaseUrl.None? && r.Some? ==> r.value == ComposedUrl(env)
  {
    match env.databaseUrl
    case Some(url) => Some(url)
    case None => if HasComponents(env) then Some(ComposedUrl(env)) else None
  }

  /** The configured URL, or the error the module throws when there is none (`!databaseUrl`). */
  function LoadUrl(env: Env): (r: Result<string, string>)
    ensures r.Ok? ==> r.value != ""
    ensures r.Err? ==> r.error == ConfigError
  {
    var url := ResolveUrl(env);
    if !Truthy(url) then Err(ConfigError) else Ok(url.value)
  }

  /**
   * The configuration fails exactly when `DATABASE_URL` is set but empty
   * (an empty string still takes precedence), or when it is unset and some
   * required component is missing or empty.  A composed URL is never empty.
   */
  lemma LoadUrlFailsIff(env: Env)
    ensures LoadUrl(env).Err? <==>
      env.databaseUrl == Some("") || (env.databaseUrl.None? && !HasComponents(env))
    ensures LoadUrl(env).Ok? && env.databaseUrl.None? ==> LoadUrl(env).value == ComposedUrl(env)
  {
  }

  /** An explicit `DATABASE_URL` is used as it is, whatever the `DB_*` variables say. */
  lemma ExplicitUrlWins(env: Env, other: Env)
    requires env.databaseUrl.Some? && other.databaseUrl == env.databaseUrl
    ensures LoadUrl(env) == LoadUrl(other)
  {
  }

  /**
   * The composed URL splits back into its parts: after the scheme, the
   * first `@` ends the user information (`user` or `user:password`, the
   * password present exactly when it is non-empty) and the rest is
   * `host:port/name`.  This needs the components to be free of `@`, which
   * is what a valid connection string requires of them.
   */
  lemma ComposedUrlSplits(env: Env)
    requires HasComponents(env)
    requires '@' !in env.dbUser.value && '@' !in env.dbHost.value && '@' !in env.dbPort.value && '@' !in env.dbName.value
    requires env.dbPassword.Some? ==> '@' !in env.dbPassword.value
    ensures var r := ComposedUrl(env);
      && Strings.StartsWith(r, Scheme)
      && Strings.Split(r[|Scheme|..], "@")
         == [UserInfo(env.dbUser.value, env.dbPassword), HostPart(env.dbHost.value, env.dbPort.value, env.dbName.value)]
    ensures ':' !in env.dbUser.value ==>
      (':' in UserInfo(env.dbUser.value, env.dbPassword) <==> Truthy(env.dbPassword))
  {
    var info := UserInfo(env.dbUser.value, env.dbPassword);
    var host := HostPart(env.dbHost.value, env.dbPort.value, env.dbName.value);
    var r := ComposedUrl(env);
    assert r == Scheme + (info + "@" + host);
    assert r[|Scheme|..] == info + "@" + host;
    assert r[..|Scheme|] == Scheme;
    assert '@' !in ":/";
    Strings.SplitAtFirstSep(info, "@", host);
    Strings.SplitWithoutSep(host, "@");
  }
}
