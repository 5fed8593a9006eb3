/** The process environment, passed in as a map instead of read from the OS. */
module Environment {

  /** `os.Getenv`: the value of `key`, or the empty string when it is unset. */
  function Getenv(env: map<string, string>, key: string): (v: string)
    ensures key in env ==> v == env[key]
    ensures key !in env ==> v == ""
  {
    if key in env then env[key] else ""
  }
}
