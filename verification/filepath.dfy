/**
  The operating-system constants and the one `path/filepath` function that
  mobile.go's PATH handling uses: `os.PathListSeparator`, `filepath.Separator`
  and `filepath.FromSlash`.
 */
module FilePath {
  import opened GoStrings

  /** The two separators Go fixes per operating system. */
  datatype Platform = Platform(separator: char, listSeparator: char)
  {
    /** The directory separator never doubles as the PATH list separator. */
    predicate Valid() {
      separator != listSeparator
    }
  }

  const Unix := Platform('/', ':')
  const Windows := Platform('\\', ';')
  const Plan9 := Platform('/', '\0')

  /** `filepath.FromSlash`: every '/' becomes the platform's directory separator. */
  function FromSlash(path: string, p: Platform): (r: string)
    ensures |r| == |path|
    ensures forall i :: 0 <= i < |path| && path[i] != '/' ==> r[i] == path[i]
    ensures forall i :: 0 <= i < |path| && path[i] == '/' ==> r[i] == p.separator
  {
    if p.separator == '/' then path
    else seq(|path|, i requires 0 <= i < |path| => if path[i] == '/' then p.separator else path[i])
  }

  /** Where '/' is already the separator, `FromSlash` changes nothing. */
  lemma FromSlashIdentity(path: string, p: Platform)
    requires p.separator == '/'
    ensures FromSlash(path, p) == path
  {
  }

  /** `FromSlash` never introduces the list separator. */
  lemma FromSlashKeepsListSeparatorOut(path: string, p: Platform)
    requires p.Valid()
    requires p.listSeparator !in path
    ensures p.listSeparator !in FromSlash(path, p)
  {
    var r := FromSlash(path, p);
    forall i | 0 <= i < |r| ensures r[i] != p.listSeparator {
      assert path[i] != p.listSeparator;
    }
  }

  /** A slash-free word found in `path` is still found after `FromSlash`. */
  lemma {:induction false} FromSlashKeepsWord(path: string, word: string, p: Platform)
    requires '/' !in word
    requires Contains(path, word)
    ensures Contains(FromSlash(path, p), word)
  {
    var r := FromSlash(path, p);
    var i :| OccursAt(path, word, i);
    forall k | 0 <= k < |word| ensures r[i + k] == word[k] {
      assert path[i..i + |word|][k] == path[i + k];
    }
    assert r[i..i + |word|] == word;
    assert OccursAt(r, word, i);
  }

  /** A word without the directory separator found after `FromSlash` was already in `path`. */
  lemma {:induction false} FromSlashReflectsWord(path: string, word: string, p: Platform)
    requires p.separator !in word
    requires Contains(FromSlash(path, p), word)
    ensures Contains(path, word)
  {
    var r := FromSlash(path, p);
    var i :| OccursAt(r, word, i);
    forall k | 0 <= k < |word| ensures path[i + k] == word[k] {
      assert r[i..i + |word|][k] == r[i + k];
    }
    assert path[i..i + |word|] == word;
    assert OccursAt(path, word, i);
  }
}
