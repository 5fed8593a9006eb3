/** config.go: the settings read from the environment, with defaults for the
    look-back window and the page size, and the check that the credentials and
    the username are present. */
module Config {
  import opened Wrappers
  import opened Environment
  import opened Strconv

  const DefaultDaysBack: int := 7
  const DefaultPerPage: int := 10

  datatype Config = Config(gitHubToken: string, geminiKey: string, username: string, daysBack: int, perPage: int)

  /** The value `LoadConfig` ends up with for `key`: the override is used only when it is set, non-empty, parses
      as an integer and is positive; otherwise the default stays. */
  function PositiveSetting(env: map<string, string>, key: string, default: int): (v: int)
    requires default > 0
    ensures v > 0
    ensures Atoi(Getenv(env, key)).Some? && Atoi(Getenv(env, key)).value > 0 ==> v == Atoi(Getenv(env, key)).value
    ensures !(Atoi(Getenv(env, key)).Some? && Atoi(Getenv(env, key)).value > 0) ==> v == default
  {
    var text := Getenv(env, key);
    if text != "" then
      match Atoi(text)
      case Some(n) => if n > 0 then n else default
      case None => default
    else default
  }

  /** `LoadConfig`: the credentials and username as set (empty when unset),
      then the defaults, each overwritten by a valid positive override. */
  method LoadConfig(env: map<string, string>) returns (config: Config)
    ensures config.gitHubToken == Getenv(env, "GITHUB_ACCESS_TOKEN")
    ensures config.geminiKey == Getenv(env, "GEMINI_API_KEY")
    ensures config.username == Getenv(env, "GITHUB_USERNAME")
    ensures config.daysBack == PositiveSetting(env, "DAYS_BACK", DefaultDaysBack)
    ensures config.perPage == PositiveSetting(env, "PER_PAGE", DefaultPerPage)
    ensures config.daysBack > 0 && config.perPage > 0
  {
    config := Config(
      Getenv(env, "GITHUB_ACCESS_TOKEN"),
      Getenv(env, "GEMINI_API_KEY"),
      Getenv(env, "GITHUB_USERNAME"),
      DefaultDaysBack,
      DefaultPerPage);
    var daysStr := Getenv(env, "DAYS_BACK");
    if daysStr != "" {
      var days := Atoi(daysStr);
      if days.Some? && days.value > 0 {
        config := config.(daysBack := days.value);
      }
    }
    var perPageStr := Getenv(env, "PER_PAGE");
    if perPageStr != "" {
      var perPage := Atoi(perPageStr);
      if perPage.Some? && perPage.value > 0 {
        config := config.(perPage := perPage.value);
      }
    }
  }

  /** A positive setting written in decimal is taken as written. */
  lemma SettingReadsDecimal(env: map<string, string>, key: string, default: int, n: int)
    requires default > 0
    requires 0 < n <= IntMax
    requires key in env && env[key] == Decimal(n)
    ensures PositiveSetting(env, key, default) == n
  {
    AtoiDecimal(n);
  }

  /** A zero or negative setting leaves the default in place. */
  lemma SettingIgnoresNonPositive(env: map<string, string>, key: string, default: int, n: int)
    requires default > 0
    requires IntMin <= n <= 0
    requires key in env && env[key] == Decimal(n)
    ensures PositiveSetting(env, key, default) == default
  {
    AtoiDecimal(n);
  }

  /** `Config.Validate`: the token, then the Gemini key, then the username must
      be non-empty; the first missing one is reported. */
  function Validate(c: Config): (err: Option<string>)
    ensures err.None? <==> c.gitHubToken != "" && c.geminiKey != "" && c.username != ""
    ensures c.gitHubToken == "" ==> err == Some("GITHUB_ACCESS_TOKEN environment variable is required")
    ensures c.gitHubToken != "" && c.geminiKey == "" ==> err == Some("GEMINI_API_KEY environment variable is required")
    ensures c.gitHubToken != "" && c.geminiKey != "" && c.username == "" ==>
      err == Some("GITHUB_USERNAME environment variable is required")
  {
    if c.gitHubToken == "" then Some("GITHUB_ACCESS_TOKEN environment variable is required")
    else if c.geminiKey == "" then Some("GEMINI_API_KEY environment variable is required")
    else if c.username == "" then Some("GITHUB_USERNAME environment variable is required")
    else None
  }
}
