/**
  Properties that relate several calls: `resetPath` undoes `prependToPath`
  under the conditions the temporary directory guarantees, and what happens
  when those conditions fail.
 */
module RoundTrip {
  import opened GoStrings
  import opened FilePath
  import opened Mobile

  /** Splitting at the first `c` is unique: a `c`-free prefix, `c`, then what `TrimUntilChar` keeps. */
  lemma {:induction false} TrimUntilCharInverse(prefix: string, c: char, rest: string)
    requires c !in prefix
    ensures TrimUntilChar(prefix + [c] + rest, c) == rest
  {
    var s := prefix + [c] + rest;
    var r := TrimUntilChar(s, c);
    assert s[|prefix|] == c;
    var k := |s| - |r| - 1;
    // The first `c` cannot lie inside `prefix`, nor after position |prefix|.
    if k < |prefix| {
      assert false;
    } else if k > |prefix| {
      assert false;
    }
    assert r == s[|prefix| + 1..];
    assert s[|prefix| + 1..] == rest;
  }

  /** When PATH mentions "garble", reset removes exactly its first entry (or keeps a one-entry PATH). */
  lemma ResetPathDropsFirstEntry(env: Env, p: Platform)
    requires Contains(Getenv(env, PathVar), Marker)
    ensures var path := Getenv(env, PathVar);
            var path' := Getenv(ResetPath(env, p), PathVar);
            (p.listSeparator !in path ==> path' == path) &&
            (p.listSeparator in path ==>
               exists first :: p.listSeparator !in first && path == first + [p.listSeparator] + path')
  {
    var path := Getenv(env, PathVar);
    var path' := Getenv(ResetPath(env, p), PathVar);
    if p.listSeparator in path {
      var first := path[..|path| - |path'| - 1];
      assert path == first + [p.listSeparator] + path';
    }
  }

  /** Prepending the temporary directory and resetting gives back the original PATH. */
  lemma {:induction false} ResetUndoesPrepend(env: Env, dir: string, p: Platform)
    requires p.Valid()
    requires p.listSeparator !in dir
    requires Contains(dir, Marker)
    ensures Getenv(ResetPath(PrependToPath(env, dir, p), p), PathVar) == Getenv(env, PathVar)
    ensures SameExcept(env, ResetPath(PrependToPath(env, dir, p), p), PathVar)
    ensures PathVar in env ==> ResetPath(PrependToPath(env, dir, p), p) == env
    ensures PathVar !in env ==> ResetPath(PrependToPath(env, dir, p), p) == env[PathVar := ""]
  {
    var d := FromSlash(dir, p);
    var old_path := Getenv(env, PathVar);
    var mid := PrependToPath(env, dir, p);
    PrependedPathMentionsMarker(env, dir, p);
    FromSlashKeepsListSeparatorOut(dir, p);
    TrimUntilCharInverse(d, p.listSeparator, old_path);
    assert Getenv(mid, PathVar) == d + [p.listSeparator] + old_path;
    var back := ResetPath(mid, p);
    assert back == mid[PathVar := old_path];
  }

  /** The PATH after prepending always mentions "garble" when the directory does, whatever PATH held. */
  lemma {:induction false} PrependedPathMentionsMarker(env: Env, dir: string, p: Platform)
    requires Contains(dir, Marker)
    ensures Contains(Getenv(PrependToPath(env, dir, p), PathVar), Marker)
  {
    var d := FromSlash(dir, p);
    FromSlashKeepsWord(dir, Marker, p);
    ContainsExtend(d, [p.listSeparator] + Getenv(env, PathVar), Marker);
    assert d + [p.listSeparator] + Getenv(env, PathVar) == d + ([p.listSeparator] + Getenv(env, PathVar));
  }

  /** Reset after prepend trims the prepended PATH at its first list separator. */
  lemma {:induction false} ResetOfPrepended(env: Env, dir: string, p: Platform)
    requires Contains(dir, Marker)
    ensures var whole := FromSlash(dir, p) + [p.listSeparator] + Getenv(env, PathVar);
            Getenv(ResetPath(PrependToPath(env, dir, p), p), PathVar) == TrimUntilChar(whole, p.listSeparator)
  {
    PrependedPathMentionsMarker(env, dir, p);
  }

  /** A `c` inside the first part makes the trim stop early, keeping more than `rest`. */
  lemma {:induction false} TrimStopsInsidePrefix(d: string, c: char, rest: string)
    requires c in d
    ensures |TrimUntilChar(d + [c] + rest, c)| > |rest|
  {
    var s := d + [c] + rest;
    var r := TrimUntilChar(s, c);
    var j :| 0 <= j < |d| && d[j] == c;
    assert s[j] == c;
  }

  /** A directory holding the list separator is never fully removed: PATH does not come back. */
  lemma {:induction false} SeparatorInDirBreaksRoundTrip(env: Env, dir: string, p: Platform)
    requires p.listSeparator != '/'
    requires p.listSeparator in dir
    ensures Getenv(ResetPath(PrependToPath(env, dir, p), p), PathVar) != Getenv(env, PathVar)
  {
    var d := FromSlash(dir, p);
    var j :| 0 <= j < |dir| && dir[j] == p.listSeparator;
    assert d[j] == p.listSeparator;
    if Contains(Getenv(PrependToPath(env, dir, p), PathVar), Marker) {
      // Reset trims, but stops inside the directory.
      TrimStopsInsidePrefix(d, p.listSeparator, Getenv(env, PathVar));
    }
  }

  /** Without "garble" in the directory or in PATH, reset leaves the prepended PATH in place. */
  lemma {:induction false} MarkerlessDirIsNotRemoved(env: Env, dir: string, p: Platform)
    requires p.separator !in Marker && p.listSeparator !in Marker
    requires !Contains(dir, Marker)
    requires !Contains(Getenv(env, PathVar), Marker)
    ensures ResetPath(PrependToPath(env, dir, p), p) == PrependToPath(env, dir, p)
  {
    var d := FromSlash(dir, p);
    var mid := PrependToPath(env, dir, p);
    if Contains(Getenv(mid, PathVar), Marker) {
      ContainsSplit(d, p.listSeparator, Getenv(env, PathVar), Marker);
      if Contains(d, Marker) {
        FromSlashReflectsWord(dir, Marker, p);
      }
      assert false;
    }
  }

  /** On Unix the prepended PATH is literally the directory, ':' and the old PATH, and reset restores it. */
  lemma {:induction false} UnixResetUndoesPrepend(env: Env, dir: string)
    requires ':' !in dir
    requires Contains(dir, Marker)
    ensures Getenv(PrependToPath(env, dir, Unix), PathVar) == dir + [':'] + Getenv(env, PathVar)
    ensures PathVar in env ==> ResetPath(PrependToPath(env, dir, Unix), Unix) == env
  {
    FromSlashIdentity(dir, Unix);
    ResetUndoesPrepend(env, dir, Unix);
  }

  /** The "garble" test covers the whole PATH: a later entry naming garble still costs the first entry. */
  lemma {:induction false} MarkerElsewhereDropsFirstEntry(env: Env, first: string, rest: string, p: Platform)
    requires p.listSeparator !in first
    requires Contains(rest, Marker)
    ensures var env' := env[PathVar := first + [p.listSeparator] + rest];
            Getenv(ResetPath(env', p), PathVar) == rest
  {
    ContainsPrepend(first + [p.listSeparator], rest, Marker);
    TrimUntilCharInverse(first, p.listSeparator, rest);
  }
}
