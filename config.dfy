/** The test-run configuration: the environment name read from the
    environment, and a settings record whose credentials that name
    overrides. Reading the process environment is a parameter here. */
module ApiTestConfig {
  import opened Wrappers

  /** The settings every test imports. */
  datatype Config = Config(apiUrl: string, userEmail: string, userPassword: string)

  const ApiUrl := "https://conduit-api.bondaracademy.com/api"
  const DefaultEmail := "franktest@test.com"
  const QaEmail := "franktestapi@test.com"
  const DefaultPassword := "Test1234"

  /** `TEST_ENV || 'dev'`: a variable that is unset or empty (both falsy)
      falls back to "dev"; any other value is taken as it is. */
  function SelectEnv(testEnv: Option<string>): (env: string)
    ensures env != ""
    ensures testEnv.Some? && testEnv.value != "" ==> env == testEnv.value
    ensures testEnv.None? || testEnv.value == "" ==> env == "dev"
  {
    if testEnv.Some? && testEnv.value != "" then testEnv.value else "dev"
  }

  /** Starts from the defaults and applies the "qa" and then the "prod"
      override, each switched on by an exact, case-sensitive match. */
  method BuildConfig(env: string) returns (config: Config)
    ensures config.apiUrl == ApiUrl
    ensures env == "qa" ==> config.userEmail == QaEmail && config.userPassword == DefaultPassword
    ensures env == "prod" ==> config.userEmail == "" && config.userPassword == ""
    ensures env != "qa" && env != "prod" ==>
              config.userEmail == DefaultEmail && config.userPassword == DefaultPassword
  {
    config := Config(ApiUrl, DefaultEmail, DefaultPassword);
    if env == "qa" {
      config := config.(userEmail := QaEmail, userPassword := "Test1234");
    }
    if env == "prod" {
      config := config.(userEmail := "", userPassword := "");
    }
  }

  /** The whole module body: pick the environment, then build the record. */
  method LoadConfig(testEnv: Option<string>) returns (env: string, config: Config)
    ensures env == SelectEnv(testEnv)
    ensures config.apiUrl == ApiUrl
    ensures testEnv.None? ==> config == Config(ApiUrl, DefaultEmail, DefaultPassword)
    ensures testEnv == Some("qa") ==> config == Config(ApiUrl, QaEmail, DefaultPassword)
    ensures testEnv == Some("prod") ==> config == Config(ApiUrl, "", "")
    ensures testEnv == Some("QA") ==> config == Config(ApiUrl, DefaultEmail, DefaultPassword)
    ensures env == "qa" ==> config == Config(ApiUrl, QaEmail, DefaultPassword)
    ensures env == "prod" ==> config == Config(ApiUrl, "", "")
    ensures env != "qa" && env != "prod" ==> config == Config(ApiUrl, DefaultEmail, DefaultPassword)
  {
    env := SelectEnv(testEnv);
    config := BuildConfig(env);
  }
}
