# garble gomobile PATH shim, modelled in Dafny

garble is a build-time obfuscator for Go programs. gomobile runs `go` from
PATH, so garble's gomobile support copies the garble binary into a
temporary directory as `go`. It puts that directory in front of PATH so that
gomobile runs garble. Running as that shim, garble later takes the directory
off PATH again so that the real `go` is found. This project models the pure
part of that dance from `mobile.go`:

- `trimUntilChar` drops everything up to and including the first occurrence
  of a character (`Mobile.TrimUntilChar`).
- `prependToPath` sets PATH to the normalised directory, the list separator,
  then the old PATH (`Mobile.PrependToPath`).
- `resetPath` drops the first PATH entry, but only if PATH contains "garble"
  somewhere (`Mobile.ResetPath`).
- `isPassThroughCommand` routes every subcommand except `build` and
  `toolexec` to the real `go` binary (`Mobile.IsPassThroughCommand`).

The process environment is an explicit value (`map<string, string>`)
passed in and returned, instead of ambient state. `os.PathListSeparator` and
`filepath.Separator` are the fields of a `Platform` value, with the Unix,
Windows and Plan 9 constants given. The Go library functions used are
modelled by their documented behaviour, each with its own contract:
`strings.IndexRune`, `strings.Contains` (module `GoStrings`) and
`filepath.FromSlash` (module `FilePath`). The module `RoundTrip` holds the
lemmas that relate prepend and reset.

The main result is `RoundTrip.ResetUndoesPrepend`. Say the directory
contains "garble", which the `os.MkdirTemp("", "garble")` pattern
guarantees, and contains no list separator. Then reset after prepend gives
back the original PATH, and no other variable changes. If PATH was unset
before, it ends up set to the empty string. That is the same value to
`os.Getenv`, but it is not the same environment. The other lemmas show that
both side conditions are needed, and that the "garble" test looks at the
whole PATH.

## Model

| member | source | states |
|---|---|---|
| GoStrings.IndexRune | mobile.go:182-184 | The result is -1 exactly when the rune is absent. Otherwise it is a position holding the rune with no earlier occurrence. |
| GoStrings.Contains | mobile.go:174 | True exactly when some position of the string starts an occurrence of the word. |
| FilePath.FromSlash | mobile.go:191 | The result has the same length as the input. Every '/' becomes the platform's directory separator, and every other character is kept. |
| Mobile.Getenv | mobile.go:193 | An unset variable reads as the empty string. A set variable reads as its value. |
| FilePath.FromSlashIdentity | mobile.go:191 | On a platform whose separator is '/', normalising the directory leaves it unchanged. |
| FilePath.FromSlashKeepsListSeparatorOut | mobile.go:191 | Normalising a directory that has no list separator never introduces one, because the directory separator differs from the list separator. |
| FilePath.FromSlashKeepsWord | mobile.go:149-151 | A slash-free word such as "garble" that occurs in the directory still occurs after normalisation. |
| Mobile.TrimUntilChar | mobile.go:181-187 | The result is always a suffix of the input. With the character absent, it is the whole input. With the character present, it is strictly shorter, and the input is a character-free prefix, the character, then the result (only the first occurrence is consumed). |
| Mobile.PrependToPath | mobile.go:189-199 | PATH becomes exactly the normalised directory, the list separator, then the old PATH (empty if unset). PATH is set afterwards, and every other variable keeps its presence and value. |
| Mobile.ResetPath | mobile.go:172-179 | If PATH does not contain "garble", the environment is returned unchanged. Otherwise PATH stays set and no other variable changes. |
| Mobile.IsPassThroughCommand | mobile.go:203-209 | False exactly for "build" and "toolexec", and true for every other command. |
| RoundTrip.TrimUntilCharInverse | mobile.go:181-187 | The split at the first occurrence is unique: trimming a separator-free prefix followed by the separator returns exactly the rest. |
| RoundTrip.TrimStopsInsidePrefix | mobile.go:181-187 | If the separator already occurs in the first part, the trim stops there and keeps more than the rest. |
| RoundTrip.ResetPathDropsFirstEntry | mobile.go:172-179 | When PATH contains "garble", reset removes exactly the first entry: a separator-free prefix plus the separator. A PATH with no separator is kept as it is. |
| RoundTrip.PrependedPathMentionsMarker | mobile.go:149-151 | Once a directory containing "garble" is prepended, PATH contains "garble", whatever it held before. |
| RoundTrip.ResetOfPrepended | mobile.go:172-198 | Reset after prepend leaves PATH as the prepended PATH trimmed at its first list separator. |
| RoundTrip.ResetUndoesPrepend | mobile.go:149-198 | If the directory contains "garble" and no list separator, reset after prepend restores the original PATH value and every other variable. The environment is identical when PATH was set, and PATH is left as "" when it was unset. |
| RoundTrip.UnixResetUndoesPrepend | mobile.go:172-198 | On Unix, with ':' absent from the directory and "garble" present in it, the prepended PATH is literally the directory, ':' and the old PATH. Reset then restores the environment when PATH was set. |
| RoundTrip.SeparatorInDirBreaksRoundTrip | mobile.go:172-198 | If the directory contains a list separator (which differs from '/' on every platform), reset after prepend does not give back the original PATH, whether or not "garble" occurs anywhere. Without "garble" nothing is reset. With it, the trim stops inside the directory. |
| RoundTrip.MarkerlessDirIsNotRemoved | mobile.go:172-198 | Suppose neither separator occurs in "garble", and neither the directory nor the old PATH contains "garble". Then reset leaves the prepended environment exactly as it is, so the shim directory stays on PATH. |
| RoundTrip.MarkerElsewhereDropsFirstEntry | mobile.go:172-179 | The "garble" test covers the whole PATH, so a later entry containing "garble" still makes reset drop the first entry, whatever that entry is. |

## Left out

- `saveFlagsToEnv`, `loadFlagsFromEnv`, `newFlagsForEnv` (mobile.go:24-92) are left out. They are JSON and base64 library calls plus assignments to global flag variables.
- `redirectToOgGo` (mobile.go:95-116) is left out. It executes a process and extracts its exit status.
- `copyGarbleToTempDirAsGo` and `copyFileToTmp` (mobile.go:119-168) are left out because they are filesystem I/O. The one fact the model uses from them, that the temporary directory's name contains "garble", appears as a precondition of the round-trip lemmas.
- Mobile.PrependToPath: the `error` that `os.Setenv` may return is not modelled. The result is always the updated environment, because the failure conditions of the operating system call are outside this model.
- Mobile.Getenv: variable names are matched by exact case, as on Unix and Plan 9. On Windows the operating system matches them ignoring case, so a variable spelled `Path` is the one `os.Getenv("PATH")` reads and `os.Setenv("PATH", …)` overwrites. The model covers Windows only when the variable is spelled exactly "PATH". For another spelling, the frame clauses of Mobile.PrependToPath, Mobile.ResetPath and RoundTrip.ResetUndoesPrepend do not describe Windows.
- `os.Getenv` and `os.Setenv` are replaced by reading and updating an explicit `map<string, string>`. Concurrent changes to the process environment are not modelled.
- Mobile.TrimUntilChar: the model matches Go only for a single-byte `c`. Go's `s[index+1:]` advances by one byte, so for a multi-byte `c` Go keeps `c`'s trailing bytes, while the model drops the whole character. The one caller passes `os.PathListSeparator`, which is a single byte on every platform.
- GoStrings.IndexRune: Go strings are byte strings and `strings.IndexRune` returns a byte offset. The model works on characters. This matches Go for the separators involved (':', ';' and NUL), which are single bytes. Multi-byte runes and invalid UTF-8 are not modelled.
- The Go standard library packages `strings`, `path/filepath` and `os` are not part of this model. Their functions are given independent definitions here, following their documented behaviour.
