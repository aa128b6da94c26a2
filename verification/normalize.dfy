/**
  Path normalisation as `GetFilesByPattern` does it before choosing a branch
  (FileUniter/Program.cs:119): every backslash becomes a forward slash, then
  the regular expression `//+` replaces every run of two or more slashes by a
  single one.
 */
module PathNorm {
  import opened Text

  /** No two neighbouring characters are both `/`. */
  predicate NoDoubleSlash(s: string)
  {
    forall i :: 0 <= i < |s| - 1 ==> !(s[i] == '/' && s[i + 1] == '/')
  }

  /** The shape every normalised path has. */
  predicate IsNormal(s: string)
  {
    '\\' !in s && NoDoubleSlash(s)
  }

  /** `Regex.Replace(s, "//+", "/")`, scanning left to right: a slash that
      is followed by another slash is dropped, so each run keeps its last. */
  function Collapse(s: string): (r: string)
    ensures |r| <= |s|
    ensures |s| > 0 ==> |r| > 0 && r[0] == s[0]
    ensures NoDoubleSlash(r)
  {
    if |s| < 2 then s
    else if s[0] == '/' && s[1] == '/' then Collapse(s[1..])
    else [s[0]] + Collapse(s[1..])
  }

  /** The normalised form of a user-supplied path. */
  function Normalize(path: string): string
  {
    Collapse(ReplaceChar(path, '\\', '/'))
  }

  /** An independent reading of the regular expression: walk the string
      remembering whether the previous kept character was a slash, and keep a
      slash only when it was not. Each maximal run of slashes thus becomes one. */
  function CollapseRuns(s: string, afterSlash: bool): string
  {
    if |s| == 0 then []
    else if s[0] == '/' && afterSlash then CollapseRuns(s[1..], true)
    else [s[0]] + CollapseRuns(s[1..], s[0] == '/')
  }

  /** The recursive definition and the run-by-run reading agree. */
  lemma {:induction false} CollapseIsRunReplacement(s: string)
    ensures Collapse(s) == CollapseRuns(s, false)
    decreases |s|
  {
    if |s| == 0 {
    } else if |s| == 1 {
      assert CollapseRuns(s[1..], s[0] == '/') == [];
    } else if s[0] == '/' && s[1] == '/' {
      CollapseIsRunReplacement(s[1..]);
      assert s[1..][1..] == s[2..];
    } else {
      CollapseIsRunReplacement(s[1..]);
      if s[0] == '/' {
        assert s[1..][1..] == s[2..];
        assert CollapseRuns(s[1..], true) == CollapseRuns(s[1..], false);
      }
    }
  }

  /** Only slashes are ever dropped: the other characters survive in order. */
  lemma {:induction false} CollapseKeepsNonSlash(s: string)
    ensures RemoveChar(Collapse(s), '/') == RemoveChar(s, '/')
    ensures '/' in s <==> '/' in Collapse(s)
    decreases |s|
  {
    if |s| < 2 {
    } else {
      CollapseKeepsNonSlash(s[1..]);
      assert s == [s[0]] + s[1..];
      if s[0] == '/' && s[1] == '/' {
        assert '/' in s[1..];
      } else {
        var t := Collapse(s[1..]);
        assert ([s[0]] + t)[1..] == t;
      }
    }
  }

  /** A string with no double slash is left as it is. */
  lemma {:induction false} CollapseFixesNoDoubleSlash(s: string)
    requires NoDoubleSlash(s)
    ensures Collapse(s) == s
    decreases |s|
  {
    if |s| >= 2 {
      assert !(s[0] == '/' && s[1] == '/');
      assert NoDoubleSlash(s[1..]) by {
        forall i | 0 <= i < |s[1..]| - 1
          ensures !(s[1..][i] == '/' && s[1..][i + 1] == '/')
        {
          assert s[1..][i] == s[i + 1] && s[1..][i + 1] == s[i + 2];
        }
      }
      CollapseFixesNoDoubleSlash(s[1..]);
      assert s == [s[0]] + s[1..];
    }
  }

  /** Normalised paths hold no backslash and no `//`. */
  lemma NormalizeIsNormal(path: string)
    ensures IsNormal(Normalize(path))
  {
    var t := ReplaceChar(path, '\\', '/');
    var n := Normalize(path);
    assert '\\' !in t;
    CollapseKeepsNonSlash(t);
    assert multiset(n)['\\'] == multiset(RemoveChar(n, '/'))['\\'];
    assert multiset(RemoveChar(t, '/'))['\\'] == multiset(t)['\\'] == 0;
  }

  /** Normalising twice is normalising once. */
  lemma NormalizeIdempotent(path: string)
    ensures Normalize(Normalize(path)) == Normalize(path)
  {
    var n := Normalize(path);
    NormalizeIsNormal(path);
    assert ReplaceChar(n, '\\', '/') == n;
    CollapseFixesNoDoubleSlash(n);
  }

  /** A path that is already normal is unchanged by normalisation. */
  lemma NormalizeFixesNormal(path: string)
    requires IsNormal(path)
    ensures Normalize(path) == path
  {
    assert ReplaceChar(path, '\\', '/') == path;
    CollapseFixesNoDoubleSlash(path);
  }

  /** Normalisation neither adds nor removes any character other than the two
      separators; in particular a `*` survives it exactly. */
  lemma NormalizeKeepsOtherChars(path: string, c: char)
    requires c != '/' && c != '\\'
    ensures multiset(Normalize(path))[c] == multiset(path)[c]
    ensures c in Normalize(path) <==> c in path
  {
    var t := ReplaceChar(path, '\\', '/');
    CollapseKeepsNonSlash(t);
    assert multiset(Normalize(path))[c] == multiset(RemoveChar(Normalize(path), '/'))[c];
    assert multiset(t)[c] == multiset(RemoveChar(t, '/'))[c];
    ReplaceKeepsOtherChars(path, c);
  }

  lemma {:induction false} ReplaceKeepsOtherChars(s: string, c: char)
    requires c != '/' && c != '\\'
    ensures multiset(ReplaceChar(s, '\\', '/'))[c] == multiset(s)[c]
    decreases |s|
  {
    if |s| > 0 {
      ReplaceKeepsOtherChars(s[1..], c);
      assert s == [s[0]] + s[1..];
      var r := ReplaceChar(s, '\\', '/');
      assert r == [r[0]] + r[1..];
      assert r[1..] == ReplaceChar(s[1..], '\\', '/');
    }
  }
}
