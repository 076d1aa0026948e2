/** Configuration of the server (src/config.py): a frozen record built from the
    process environment, which is given here as an explicit map. */
module Configuration {
  import opened Wrappers

  type Env = map<string, string>

  datatype Config = Config(
    hostname: string,             // host the server is reachable under
    debug: bool,                  // verbose logging
    persistence: bool,            // keep the state in a database file
    imagesStorage: string,        // directory holding uploaded images
    videosStorage: string,        // directory holding videos
    internalStatePath: string,    // database file used when persistence is on
    createDefaultAccount: bool)   // seed the default account at startup

  /** The default account every configuration carries. */
  const DefaultAccountId: string := "bfbdec2a2da54ab1bc801b051ebed06a"
  const DefaultAccountHash: string := "573a5ca1603c440"

  /** The name handed to the database driver: the state file when persistence is on,
      otherwise SQLite's private in-memory database. */
  function InternalDbName(c: Config): (r: string)
    ensures c.persistence ==> r == c.internalStatePath
    ensures !c.persistence ==> r == ":memory:"
  {
    if c.persistence then c.internalStatePath else ":memory:"
  }

  /** The values `os.environ.get(key, False)` can produce: the variable's text, or the
      default `False`. */
  datatype EnvValue = Text(s: string) | FalseDefault

  function EnvGet(env: Env, key: string): EnvValue {
    if key in env then Text(env[key]) else FalseDefault
  }

  /** Python's `bool(...)` on such a value: a string is true exactly when it is non-empty. */
  function Truthy(v: EnvValue): bool {
    match v
    case Text(s) => |s| > 0
    case FalseDefault => false
  }

  /** `os.environ.get(key, default)` for a textual default. */
  function EnvOr(env: Env, key: string, default: string): string {
    if key in env then env[key] else default
  }

  /** `load_config`: no configuration (the process exits with status 1) without HOSTNAME;
      otherwise every field read from its variable, with the documented defaults. */
  function LoadConfig(env: Env): (r: Option<Config>)
    ensures r.None? <==> "HOSTNAME" !in env
    ensures r.Some? ==> r.value.hostname == env["HOSTNAME"]
    ensures r.Some? ==> (r.value.debug <==> "DEBUG" in env && env["DEBUG"] != "")
    ensures r.Some? ==> (r.value.persistence <==> "PERSISTENCE" in env && env["PERSISTENCE"] != "")
    ensures r.Some? ==> (r.value.createDefaultAccount <==>
                           "CREATE_DEFAULT_ACCOUNT" in env && env["CREATE_DEFAULT_ACCOUNT"] != "")
    ensures r.Some? ==> r.value.imagesStorage ==
                          (if "IMAGES_STORAGE_PATH" in env then env["IMAGES_STORAGE_PATH"] else "../images")
    ensures r.Some? ==> r.value.videosStorage ==
                          (if "VIDEOS_STORAGE_PATH" in env then env["VIDEOS_STORAGE_PATH"] else "../videos")
    ensures r.Some? ==> r.value.internalStatePath ==
                          (if "INTERNAL_STATE_PATH" in env then env["INTERNAL_STATE_PATH"] else "cloudflare.db")
  {
    if "HOSTNAME" !in env then None
    else
      Some(Config(
        hostname := env["HOSTNAME"],
        debug := Truthy(EnvGet(env, "DEBUG")),
        persistence := Truthy(EnvGet(env, "PERSISTENCE")),
        imagesStorage := EnvOr(env, "IMAGES_STORAGE_PATH", "../images"),
        videosStorage := EnvOr(env, "VIDEOS_STORAGE_PATH", "../videos"),
        internalStatePath := EnvOr(env, "INTERNAL_STATE_PATH", "cloudflare.db"),
        createDefaultAccount := Truthy(EnvGet(env, "CREATE_DEFAULT_ACCOUNT"))))
  }

  /** A flag set to the text "false" still switches the option on, and with nothing but
      HOSTNAME set the server keeps its state in memory. */
  lemma FalseTextEnablesFlags(env: Env)
    requires "HOSTNAME" in env
    requires "PERSISTENCE" in env && env["PERSISTENCE"] == "false"
    ensures LoadConfig(env).Some?
    ensures LoadConfig(env).value.persistence
    ensures InternalDbName(LoadConfig(env).value) == EnvOr(env, "INTERNAL_STATE_PATH", "cloudflare.db")
  {
  }

  /** For every environment that names a host, the database is the state file exactly
      when PERSISTENCE is set to a non-empty text, and SQLite's in-memory one otherwise. */
  lemma DbNameFromEnv(env: Env)
    requires "HOSTNAME" in env
    ensures LoadConfig(env).Some?
    ensures InternalDbName(LoadConfig(env).value) ==
            (if "PERSISTENCE" in env && env["PERSISTENCE"] != ""
             then EnvOr(env, "INTERNAL_STATE_PATH", "cloudflare.db")
             else ":memory:")
  {
  }

  lemma OnlyHostnameMeansInMemory(host: string)
    ensures LoadConfig(map["HOSTNAME" := host]) ==
            Some(Config(host, false, false, "../images", "../videos", "cloudflare.db", false))
    ensures InternalDbName(LoadConfig(map["HOSTNAME" := host]).value) == ":memory:"
  {
  }
}
