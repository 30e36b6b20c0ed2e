/** The choice of the database connection string from the environment: an
    explicit DATABASE_URL, else a MySQL URL composed from the DB_* variables
    when USE_LOCAL_MYSQL is "1", else a local SQLite file. */
module Config {

  /** An environment lookup with a default: a variable that is set is used
      as it is, even when it is the empty string. */
  function EnvGet(env: map<string, string>, key: string, default: string): string {
    if key in env then env[key] else default
  }

  const SqliteUrl: string := "sqlite:///local_dev.db"
  const MysqlScheme: string := "mysql+mysqlconnector://"

  function MysqlUrl(user: string, password: string, host: string, name: string): string {
    MysqlScheme + user + ":" + password + "@" + host + "/" + name
  }

  /** DATABASE_URL counts only when it is set and non-empty (an empty string
      is false in Python). */
  predicate HasExplicitUrl(env: map<string, string>) {
    "DATABASE_URL" in env && env["DATABASE_URL"] != ""
  }

  /** The local MySQL fallback is on only for the exact value "1". */
  predicate UseLocalMysql(env: map<string, string>) {
    EnvGet(env, "USE_LOCAL_MYSQL", "0") == "1"
  }

  /** The connection string, chosen in the order explicit URL, composed MySQL
      URL, SQLite file. */
  function DatabaseUrl(env: map<string, string>): (url: string)
    ensures url != ""
    ensures HasExplicitUrl(env) ==> url == env["DATABASE_URL"]
    ensures !HasExplicitUrl(env) && !UseLocalMysql(env) ==> url == SqliteUrl
    ensures !HasExplicitUrl(env) && UseLocalMysql(env) ==>
      && MysqlScheme <= url
      && url == MysqlUrl(EnvGet(env, "DB_USER", "root"), EnvGet(env, "DB_PASS", ""),
                         EnvGet(env, "DB_HOST", "localhost"), EnvGet(env, "DB_NAME", "covid_beds"))
  {
    var url := EnvGet(env, "DATABASE_URL", "");
    var url :=
      if url == "" && UseLocalMysql(env) then
        MysqlUrl(EnvGet(env, "DB_USER", "root"), EnvGet(env, "DB_PASS", ""),
                 EnvGet(env, "DB_HOST", "localhost"), EnvGet(env, "DB_NAME", "covid_beds"))
      else url;
    if url == "" then SqliteUrl else url
  }

  /** With only the flag set, every DB_* variable takes its default. */
  lemma LocalMysqlDefaults()
    ensures DatabaseUrl(map["USE_LOCAL_MYSQL" := "1"]) == "mysql+mysqlconnector://root:@localhost/covid_beds"
  {
    var env := map["USE_LOCAL_MYSQL" := "1"];
    assert !HasExplicitUrl(env) && UseLocalMysql(env);
    assert EnvGet(env, "DB_USER", "root") == "root" && EnvGet(env, "DB_PASS", "") == "";
    assert EnvGet(env, "DB_HOST", "localhost") == "localhost" && EnvGet(env, "DB_NAME", "covid_beds") == "covid_beds";
    assert MysqlUrl("root", "", "localhost", "covid_beds") == "mysql+mysqlconnector://root:@localhost/covid_beds";
  }

  /** An empty DATABASE_URL behaves exactly like an unset one. */
  lemma EmptyUrlIsUnset(env: map<string, string>)
    ensures DatabaseUrl(env["DATABASE_URL" := ""]) == DatabaseUrl(env - {"DATABASE_URL"})
  {
  }

  /** The DB_* variables matter only when no explicit URL is given and the
      local MySQL flag is on: two environments that agree on DATABASE_URL
      and USE_LOCAL_MYSQL select the same URL otherwise. */
  lemma DbVariablesOnlyForLocalMysql(env1: map<string, string>, env2: map<string, string>)
    requires EnvGet(env1, "DATABASE_URL", "") == EnvGet(env2, "DATABASE_URL", "")
    requires UseLocalMysql(env1) == UseLocalMysql(env2)
    requires HasExplicitUrl(env1) || !UseLocalMysql(env1)
    ensures DatabaseUrl(env1) == DatabaseUrl(env2)
  {
  }
}
