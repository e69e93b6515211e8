/**
  The PATH manipulation and command routing of garble's gomobile support.

  When gomobile drives the build it runs `go` from PATH, so garble copies
  itself into a temporary directory named after the pattern "garble", puts
  that directory in front of PATH (`prependToPath`), and later, running as
  that shim, takes it out again (`resetPath`) so that the real `go` is found.
  The environment is threaded explicitly as a value.
 */
module Mobile {
  import opened GoStrings
  import opened FilePath

  /** The process environment: variable name to value. */
  type Env = map<string, string>

  const PathVar: string := "PATH"

  /** The word `resetPath` looks for; the temporary directory pattern contains it. */
  const Marker: string := "garble"

  /** `os.Getenv`: a variable that is not set reads as the empty string. */
  function Getenv(env: Env, key: string): (v: string)
    ensures key !in env ==> v == ""
    ensures key in env ==> v == env[key]
  {
    if key in env then env[key] else ""
  }

  /** Every variable other than `key` has the same presence and value in both environments. */
  ghost predicate SameExcept(env: Env, env': Env, key: string) {
    forall k :: k != key ==> (k in env <==> k in env') && (k in env ==> env[k] == env'[k])
  }

  /** `trimUntilChar`: drops everything up to and including the first `c`. */
  function TrimUntilChar(s: string, c: char): (r: string)
    ensures |r| <= |s| && r == s[|s| - |r|..]
    ensures c !in s ==> r == s
    ensures c in s ==>
              |r| < |s| && s[|s| - |r| - 1] == c && c !in s[..|s| - |r| - 1]
  {
    var index := IndexRune(s, c);
    if index == -1 then s else s[index + 1..]
  }

  /** `prependToPath`: PATH becomes the normalised `dir`, the list separator, then the old PATH. */
  function PrependToPath(env: Env, dir: string, p: Platform): (env': Env)
    ensures PathVar in env'
    ensures Getenv(env', PathVar) == FromSlash(dir, p) + [p.listSeparator] + Getenv(env, PathVar)
    ensures SameExcept(env, env', PathVar)
  {
    var d := FromSlash(dir, p);
    var path := Getenv(env, PathVar);
    env[PathVar := d + [p.listSeparator] + path]
  }

  /** `resetPath`: if PATH mentions "garble" anywhere, its first entry is dropped. */
  function ResetPath(env: Env, p: Platform): (env': Env)
    ensures !Contains(Getenv(env, PathVar), Marker) ==> env' == env
    ensures Contains(Getenv(env, PathVar), Marker) ==>
              PathVar in env' && SameExcept(env, env', PathVar)
  {
    var path := Getenv(env, PathVar);
    if !Contains(path, Marker) then env
    else env[PathVar := TrimUntilChar(path, p.listSeparator)]
  }

  /** `isPassThroughCommand`: only "build" and "toolexec" are handled by garble itself. */
  function IsPassThroughCommand(cmd: string): (r: bool)
    ensures !r <==> cmd in {"build", "toolexec"}
  {
    match cmd
    case "build" => false
    case "toolexec" => false
    case _ => true
  }
}
