/**
  Pattern resolution: `GetFilesByPattern` and `SearchFilesInAllSubdirectories`
  (FileUniter/Program.cs:107-225), with the process-wide result cache made an
  explicit value that is passed in and handed back.

  A pattern takes exactly one of three branches, tested in this order:
  - two-level: its normalised form contains the marker slash-star-slash
    (`TwoLevelMarker`); every immediate
    subdirectory of the part before the marker is searched for the part after;
  - wildcard: the pattern as typed contains `*`; it is cut at the last
    directory separator before the first `*`;
  - literal: anything else, looked up as directory plus file name.
 */
module Resolver {
  import opened Results
  import opened Text
  import opened PathNorm
  import opened Host

  /** The marker of the two-level form. */
  const TwoLevelMarker: string := "/*/"

  /** The fixed start of the message both `catch` blocks re-throw with. */
  const PathErrorPrefix: string := "Ошибка обработки пути "

  /** The message of `new Exception($"Ошибка обработки пути {path}: {inner}")`. */
  function PathError(path: string, inner: string): string
  {
    PathErrorPrefix + path + ": " + inner
  }

  datatype Branch = TwoLevel | Wildcard | Literal

  /** The two-level marker carries a `*`. */
  lemma MarkerHasStar(s: string)
    ensures Contains(s, TwoLevelMarker) ==> '*' in s
  {
    if Contains(s, TwoLevelMarker) {
      var i :| 0 <= i <= |s| - 3 && OccursAt(s, TwoLevelMarker, i);
      assert s[i + 1] == TwoLevelMarker[1] == '*';
    }
  }

  /** The branch `GetFilesByPattern` takes: the two-level test is made on the
      normalised path, the wildcard test on the path as typed. Since
      normalisation only touches slashes, the marker cannot appear without a
      `*`, so a pattern is resolved as a literal path exactly when it holds
      no `*`. */
  function Classify(path: string): (b: Branch)
    ensures b == TwoLevel <==> Contains(Normalize(path), TwoLevelMarker)
    ensures b == Wildcard <==> !Contains(Normalize(path), TwoLevelMarker) && '*' in path
    ensures b == Literal <==> !Contains(Normalize(path), TwoLevelMarker) && '*' !in path
    ensures b == Literal <==> '*' !in path
    ensures b == TwoLevel ==> '*' in path
  {
    NormalizeKeepsOtherChars(path, '*');
    MarkerHasStar(Normalize(path));
    if Contains(Normalize(path), TwoLevelMarker) then TwoLevel
    else if '*' in path then Wildcard
    else Literal
  }

  /** The branch depends only on the normalised spelling: backslashes and
      doubled slashes never change it, although the wildcard test reads the
      path as typed. */
  lemma ClassifyIgnoresSpelling(path: string)
    ensures Classify(Normalize(path)) == Classify(path)
  {
    NormalizeIdempotent(path);
    NormalizeKeepsOtherChars(path, '*');
  }

  /** A directory and a file-name pattern. */
  datatype DirPattern = DirPattern(directory: string, pattern: string)

  lemma IndexOfCharIsFirst(s: string, c: char, i: int)
    requires 0 <= i < |s| && s[i] == c && c !in s[..i]
    ensures IndexOfChar(s, c) == i
  {
  }

  /** A separator found at `cut`, before the first `*` at `star` and with
      none in between, cuts the path into a star-free directory and a pattern
      that starts the search for the first `*` afresh. */
  lemma CutBeforeStar(path: string, sep: char, cut: int, star: int)
    requires 0 <= cut < star < |path| && path[cut] == sep && path[star] == '*'
    requires '*' !in path[..star]
    requires forall j :: cut < j <= star ==> path[j] != sep
    ensures path == path[..cut] + [sep] + path[cut + 1..]
    ensures '*' !in path[..cut]
    ensures IndexOfChar(path[cut + 1..], '*') == star - cut - 1
    ensures sep !in path[cut + 1..][..star - cut - 1]
  {
    assert path[..cut] == path[..star][..cut];
    var rest := path[cut + 1..];
    assert rest[..star - cut - 1] == path[cut + 1..star];
    assert '*' !in rest[..star - cut - 1] by {
      forall j | 0 <= j < star - cut - 1
        ensures rest[j] != '*'
      {
        assert rest[j] == path[..star][cut + 1 + j];
      }
    }
    IndexOfCharIsFirst(rest, '*', star - cut - 1);
    assert path == path[..cut] + [path[cut]] + rest;
  }

  /** Where the last separator at or before the first `*` falls. */
  lemma StarCut(path: string, sep: char)
    requires sep != '*' && '*' in path
    ensures var star := IndexOfChar(path, '*');
      var cut := LastIndexOfChar(path, sep, star);
      && (cut >= 0 <==> sep in path[..star])
      && (cut >= 0 ==>
            && cut < star
            && path == path[..cut] + [sep] + path[cut + 1..]
            && '*' !in path[..cut]
            && IndexOfChar(path[cut + 1..], '*') == star - cut - 1
            && sep !in path[cut + 1..][..star - cut - 1])
  {
    var star := IndexOfChar(path, '*');
    var cut := LastIndexOfChar(path, sep, star);
    if cut >= 0 {
      assert path[..star][cut] == sep;
      CutBeforeStar(path, sep, cut, star);
    } else {
      forall j | 0 <= j < star
        ensures path[..star][j] != sep
      {
        assert path[..star][j] == path[j];
      }
    }
  }

  /** The wildcard branch's cut (FileUniter/Program.cs:131-141): at the last
      directory separator at or before the first `*` of the path as typed,
      or, when there is none, by the platform's `GetDirectoryName` /
      `GetFileName` with the current directory and `*` as fallbacks. */
  function SplitAtStar(api: PathApi, path: string): (sp: DirPattern)
    requires '*' in path
    ensures var star := IndexOfChar(path, '*');
      api.Valid() && api.separator in path[..star] ==>
        && sp.directory + [api.separator] + sp.pattern == path
        && '*' !in sp.directory
        && IndexOfChar(sp.pattern, '*') == star - |sp.directory| - 1
        && api.separator !in sp.pattern[..IndexOfChar(sp.pattern, '*')]
    ensures var star := IndexOfChar(path, '*');
      api.Valid() && api.separator !in path[..star] ==>
        sp == DirPattern(api.directoryName(path).GetOr(api.currentDirectory), api.fileName(path).GetOr("*"))
  {
    var star := IndexOfChar(path, '*');
    var cut := LastIndexOfChar(path, api.separator, star);
    var sp :=
      if cut >= 0 then DirPattern(path[..cut], path[cut + 1..])
      else DirPattern(api.directoryName(path).GetOr(api.currentDirectory), api.fileName(path).GetOr("*"));
    if api.Valid() then StarCut(path, api.separator); sp else sp
  }

  /** The literal branch (FileUniter/Program.cs:155-159). There is no
      existence test here: a missing directory is whatever `GetFiles` makes
      of it. */
  function ResolveLiteral(fs: FileSystem, api: PathApi, path: string, recursive: bool): Result<seq<string>>
  {
    fs.listFiles(api.directoryName(path).GetOr(api.currentDirectory), api.fileName(path).GetOr("*"), recursive)
  }

  /** The wildcard branch (FileUniter/Program.cs:126-152). */
  function ResolveWildcard(fs: FileSystem, api: PathApi, path: string, recursive: bool): Result<seq<string>>
    requires '*' in path
  {
    var sp := SplitAtStar(api, path);
    if sp.directory !in fs.directories then Ok([])
    else fs.listFiles(sp.directory, sp.pattern, recursive)
  }

  /** The matches one immediate subdirectory contributes to the two-level
      search (FileUniter/Program.cs:197-216): nothing when its search
      directory does not exist or its listing fails. */
  function SubdirectoryMatches(fs: FileSystem, api: PathApi, dir: string, filePattern: string, recursive: bool): seq<string>
  {
    var searchDir := api.directoryName(api.combine(dir, filePattern)).GetOr(dir);
    var searchPattern := api.fileName(filePattern).GetOr("*");
    if searchDir in fs.directories then
      match fs.listFiles(searchDir, searchPattern, recursive)
      case Ok(files) => files
      case Err(_) => []
    else []
  }

  /** All subdirectories' matches, one after the other. The program runs the
      subdirectories in parallel into a `ConcurrentBag`, whose order is
      unspecified; this fixes one order, and the properties below are stated
      for the multiset. */
  function GatherMatches(fs: FileSystem, api: PathApi, dirs: seq<string>, filePattern: string, recursive: bool): seq<string>
    decreases |dirs|
  {
    if |dirs| == 0 then []
    else SubdirectoryMatches(fs, api, dirs[0], filePattern, recursive) + GatherMatches(fs, api, dirs[1..], filePattern, recursive)
  }

  /** `SearchFilesInAllSubdirectories` (FileUniter/Program.cs:172-225). */
  function SearchAllSubdirectories(fs: FileSystem, api: PathApi, normalized: string, recursive: bool): Result<seq<string>>
  {
    var parts := SplitOn(normalized, TwoLevelMarker);
    if |parts| != 2 then Ok([])
    else
      var baseDir := ReplaceChar(parts[0], '/', api.separator);
      var filePattern := ReplaceChar(parts[1], '/', api.separator);
      if baseDir !in fs.directories then Ok([])
      else
        match fs.listDirectories(baseDir)
        case Err(m) => Err(PathError(normalized, m))
        case Ok(subdirs) => Ok(GatherMatches(fs, api, subdirs, filePattern, recursive))
  }

  /** What `GetFilesByPattern` computes on a cache miss: the branch's answer,
      with any exception re-thrown under the path's name. */
  function Resolve(fs: FileSystem, api: PathApi, path: string, recursive: bool): (r: Result<seq<string>>)
    ensures r.Err? ==> exists inner :: r.msg == PathError(path, inner)
  {
    var inner :=
      match Classify(path)
      case TwoLevel => SearchAllSubdirectories(fs, api, Normalize(path), recursive)
      case Wildcard => ResolveWildcard(fs, api, path, recursive)
      case Literal => ResolveLiteral(fs, api, path, recursive);
    match inner
    case Ok(files) => Ok(files)
    case Err(m) => Err(PathError(path, m))
  }

  // ---------------------------------------------------------------- two-level

  /** How many times `f` is contributed, summed over the subdirectories;
      counted from the last subdirectory backwards, independently of the
      order `GatherMatches` uses. */
  ghost function Contributions(fs: FileSystem, api: PathApi, dirs: seq<string>, filePattern: string, recursive: bool, f: string): nat
    decreases |dirs|
  {
    if |dirs| == 0 then 0
    else Contributions(fs, api, dirs[..|dirs| - 1], filePattern, recursive, f)
         + multiset(SubdirectoryMatches(fs, api, dirs[|dirs| - 1], filePattern, recursive))[f]
  }

  /** Searching two lists of subdirectories is searching each in turn; in
      particular a subdirectory that fails changes nothing for the others. */
  lemma {:induction false} GatherAppend(fs: FileSystem, api: PathApi, a: seq<string>, b: seq<string>, filePattern: string, recursive: bool)
    ensures GatherMatches(fs, api, a + b, filePattern, recursive)
         == GatherMatches(fs, api, a, filePattern, recursive) + GatherMatches(fs, api, b, filePattern, recursive)
    decreases |a|
  {
    if |a| == 0 {
      assert a + b == b;
    } else {
      assert (a + b)[0] == a[0];
      assert (a + b)[1..] == a[1..] + b;
      GatherAppend(fs, api, a[1..], b, filePattern, recursive);
    }
  }

  /** The gathered list holds each file exactly as often as the
      subdirectories contribute it. */
  lemma {:induction false} GatherCounts(fs: FileSystem, api: PathApi, dirs: seq<string>, filePattern: string, recursive: bool, f: string)
    ensures multiset(GatherMatches(fs, api, dirs, filePattern, recursive))[f] == Contributions(fs, api, dirs, filePattern, recursive, f)
    decreases |dirs|
  {
    if |dirs| > 0 {
      var init := dirs[..|dirs| - 1];
      var last := dirs[|dirs| - 1];
      assert dirs == init + [last];
      GatherAppend(fs, api, init, [last], filePattern, recursive);
      assert [last][1..] == [];
      GatherCounts(fs, api, init, filePattern, recursive, f);
    }
  }

  /** A file is gathered exactly when some subdirectory contributes it. */
  lemma {:induction false} GatherMembers(fs: FileSystem, api: PathApi, dirs: seq<string>, filePattern: string, recursive: bool, f: string)
    ensures f in GatherMatches(fs, api, dirs, filePattern, recursive)
        <==> exists k :: 0 <= k < |dirs| && f in SubdirectoryMatches(fs, api, dirs[k], filePattern, recursive)
    decreases |dirs|
  {
    if |dirs| > 0 {
      GatherMembers(fs, api, dirs[1..], filePattern, recursive, f);
      if f in GatherMatches(fs, api, dirs[1..], filePattern, recursive) {
        var k :| 0 <= k < |dirs[1..]| && f in SubdirectoryMatches(fs, api, dirs[1..][k], filePattern, recursive);
        assert dirs[1..][k] == dirs[k + 1];
      }
      if exists k :: 0 <= k < |dirs| && f in SubdirectoryMatches(fs, api, dirs[k], filePattern, recursive) {
        var k :| 0 <= k < |dirs| && f in SubdirectoryMatches(fs, api, dirs[k], filePattern, recursive);
        if k > 0 {
          assert dirs[1..][k - 1] == dirs[k];
        }
      }
    }
  }

  /** The two-level form (FileUniter/Program.cs:176-219): empty unless the
      normalised path splits into exactly two parts around the marker and the base
      directory exists; a failure to list the base is an error; otherwise the
      answer holds exactly the files the subdirectories contribute, each as
      often as they contribute it. */
  lemma TwoLevelResolution(fs: FileSystem, api: PathApi, path: string, recursive: bool)
    requires Classify(path) == TwoLevel
    ensures var parts := SplitOn(Normalize(path), TwoLevelMarker);
      |parts| != 2 ==> Resolve(fs, api, path, recursive) == Ok([])
    ensures var parts := SplitOn(Normalize(path), TwoLevelMarker);
      |parts| == 2 && ReplaceChar(parts[0], '/', api.separator) !in fs.directories ==>
        Resolve(fs, api, path, recursive) == Ok([])
    ensures var parts := SplitOn(Normalize(path), TwoLevelMarker);
      var baseDir := ReplaceChar(parts[0], '/', api.separator);
      |parts| == 2 && baseDir in fs.directories && fs.listDirectories(baseDir).Err? ==>
        Resolve(fs, api, path, recursive)
        == Err(PathError(path, PathError(Normalize(path), fs.listDirectories(baseDir).msg)))
    ensures var parts := SplitOn(Normalize(path), TwoLevelMarker);
      var baseDir := ReplaceChar(parts[0], '/', api.separator);
      var filePattern := ReplaceChar(parts[1], '/', api.separator);
      |parts| == 2 && baseDir in fs.directories && fs.listDirectories(baseDir).Ok? ==>
        var subdirs := fs.listDirectories(baseDir).value;
        && Resolve(fs, api, path, recursive).Ok?
        && (forall f :: multiset(Resolve(fs, api, path, recursive).value)[f]
                       == Contributions(fs, api, subdirs, filePattern, recursive, f))
        && (forall f :: f in Resolve(fs, api, path, recursive).value
                       <==> exists k :: 0 <= k < |subdirs| && f in SubdirectoryMatches(fs, api, subdirs[k], filePattern, recursive))
  {
    var parts := SplitOn(Normalize(path), TwoLevelMarker);
    if |parts| == 2 {
      var baseDir := ReplaceChar(parts[0], '/', api.separator);
      var filePattern := ReplaceChar(parts[1], '/', api.separator);
      if baseDir in fs.directories && fs.listDirectories(baseDir).Ok? {
        var subdirs := fs.listDirectories(baseDir).value;
        forall f
          ensures multiset(GatherMatches(fs, api, subdirs, filePattern, recursive))[f]
               == Contributions(fs, api, subdirs, filePattern, recursive, f)
          ensures f in GatherMatches(fs, api, subdirs, filePattern, recursive)
              <==> exists k :: 0 <= k < |subdirs| && f in SubdirectoryMatches(fs, api, subdirs[k], filePattern, recursive)
        {
          GatherCounts(fs, api, subdirs, filePattern, recursive, f);
          GatherMembers(fs, api, subdirs, filePattern, recursive, f);
        }
      }
    }
  }

  // The split runs left to right without overlap: a/*/*/b gives a and */b.
  lemma SplitIsLeftToRight()
    ensures SplitOn("a/*/*/b", TwoLevelMarker) == ["a", "*/b"]
  {
    var s := "a/*/*/b";
    assert s[..3][0] == 'a';
    assert s[1..][..3] == TwoLevelMarker;
    assert IndexOf(s[1..], TwoLevelMarker) == 0;
    assert IndexOf(s, TwoLevelMarker) == 1;
    var rest := s[4..];
    assert rest == "*/b";
    assert rest[..3][0] == '*';
    assert IndexOf(rest[1..], TwoLevelMarker) == -1;
    assert IndexOf(rest, TwoLevelMarker) == -1;
    assert s[..1] == "a";
  }

  // ----------------------------------------------------------------- wildcard

  /** The wildcard branch yields nothing, without error, when the directory
      part does not exist (FileUniter/Program.cs:143-146), and otherwise
      whatever `GetFiles` yields there, errors re-thrown under the path. */
  lemma WildcardResolution(fs: FileSystem, api: PathApi, path: string, recursive: bool)
    requires Classify(path) == Wildcard
    ensures SplitAtStar(api, path).directory !in fs.directories ==> Resolve(fs, api, path, recursive) == Ok([])
    ensures var sp := SplitAtStar(api, path);
      sp.directory in fs.directories ==>
        Resolve(fs, api, path, recursive)
        == (match fs.listFiles(sp.directory, sp.pattern, recursive)
            case Ok(files) => Ok(files)
            case Err(m) => Err(PathError(path, m)))
  {
  }

  // ------------------------------------------------------------------ literal

  /** A literal path is handed to `GetFiles` with no existence test, so a
      missing directory is an error and not an empty answer
      (FileUniter/Program.cs:153-160). */
  lemma LiteralResolution(fs: FileSystem, api: PathApi, path: string, recursive: bool)
    requires '*' !in path
    ensures var dir := api.directoryName(path).GetOr(api.currentDirectory);
      var pat := api.fileName(path).GetOr("*");
      Resolve(fs, api, path, recursive)
      == (match fs.listFiles(dir, pat, recursive)
          case Ok(files) => Ok(files)
          case Err(m) => Err(PathError(path, m)))
  {
    assert Classify(path) == Literal;
  }

  // -------------------------------------------------------------------- cache

  /** The program's cache maps `$"{path}|{recursive}"` to a resolved list. */
  type Cache = map<string, seq<string>>

  /** `$"{path}|{recursive}"`: a C# `bool` prints as `True` or `False`. */
  function CacheKey(path: string, recursive: bool): string
  {
    path + "|" + (if recursive then "True" else "False")
  }

  /** The flag can be read back from the key: the fourth character from the
      end is the `T` of `True` or the `a` of `False`. */
  lemma CacheKeyFlag(path: string, recursive: bool)
    ensures |CacheKey(path, recursive)| >= 5
    ensures CacheKey(path, recursive)[|CacheKey(path, recursive)| - 4] == 'T' <==> recursive
    ensures path == CacheKey(path, recursive)[..|path|]
  {
  }

  /** Different (path, recursive) pairs never share a cache key. */
  lemma CacheKeyInjective(p1: string, r1: bool, p2: string, r2: bool)
    requires CacheKey(p1, r1) == CacheKey(p2, r2)
    ensures p1 == p2 && r1 == r2
  {
    CacheKeyFlag(p1, r1);
    CacheKeyFlag(p2, r2);
  }

  /** A resolver: what a cache miss computes for (path, recursive). */
  type Resolution = (string, bool) -> Result<seq<string>>

  /** The result of a cached lookup, with the cache as it stands afterwards. */
  datatype Lookup = Lookup(files: Result<seq<string>>, cache: Cache)

  /** The memoisation around resolution (FileUniter/Program.cs:112-116, 163):
      a hit returns the stored list; a miss resolves the path and records the
      answer, but only when it succeeded. No other entry is touched. */
  function CachedLookup(resolve: Resolution, cache: Cache, path: string, recursive: bool): (out: Lookup)
    ensures CacheKey(path, recursive) in cache ==> out == Lookup(Ok(cache[CacheKey(path, recursive)]), cache)
    ensures CacheKey(path, recursive) !in cache ==> out.files == resolve(path, recursive)
    ensures out.cache.Keys == cache.Keys + (if out.files.Ok? then {CacheKey(path, recursive)} else {})
    ensures forall k :: k in cache ==> out.cache[k] == cache[k]
    ensures out.files.Ok? ==> out.cache[CacheKey(path, recursive)] == out.files.value
  {
    var key := CacheKey(path, recursive);
    if key in cache then Lookup(Ok(cache[key]), cache)
    else
      match resolve(path, recursive)
      case Ok(files) => Lookup(Ok(files), cache[key := files])
      case Err(m) => Lookup(Err(m), cache)
  }

  /** The resolver `GetFilesByPattern` memoises: `Resolve` over one file
      system and path library. */
  function ResolverOf(fs: FileSystem, api: PathApi): Resolution
  {
    (p, r) => Resolve(fs, api, p, r)
  }

  /** `GetFilesByPattern` (FileUniter/Program.cs:107-170). */
  function GetFilesByPattern(fs: FileSystem, api: PathApi, cache: Cache, path: string, recursive: bool): (out: Lookup)
    ensures CacheKey(path, recursive) in cache ==> out == Lookup(Ok(cache[CacheKey(path, recursive)]), cache)
    ensures CacheKey(path, recursive) !in cache ==> out.files == Resolve(fs, api, path, recursive)
    ensures out.files.Err? ==> out.cache == cache && exists inner :: out.files.msg == PathError(path, inner)
  {
    CachedLookup(ResolverOf(fs, api), cache, path, recursive)
  }

  /** Every entry of the cache is what resolving its path would give now. */
  ghost predicate CacheSound(resolve: Resolution, cache: Cache)
  {
    forall p, r :: CacheKey(p, r) in cache ==> resolve(p, r) == Ok(cache[CacheKey(p, r)])
  }

  /** As long as the file system does not change, the cache is invisible: a
      lookup answers what resolution answers, and the cache stays sound. */
  lemma LookupIsTransparent(resolve: Resolution, cache: Cache, path: string, recursive: bool)
    requires CacheSound(resolve, cache)
    ensures CachedLookup(resolve, cache, path, recursive).files == resolve(path, recursive)
    ensures CacheSound(resolve, CachedLookup(resolve, cache, path, recursive).cache)
  {
    var out := CachedLookup(resolve, cache, path, recursive);
    forall p, r | CacheKey(p, r) in out.cache
      ensures resolve(p, r) == Ok(out.cache[CacheKey(p, r)])
    {
      if CacheKey(p, r) !in cache {
        CacheKeyInjective(p, r, path, recursive);
      }
    }
  }

  /** A second lookup of the same (path, recursive) after a successful one
      returns exactly the first answer and changes nothing, even if the file
      system has changed in between. */
  lemma RepeatLookupHits(resolve: Resolution, resolve': Resolution, cache: Cache, path: string, recursive: bool)
    requires CachedLookup(resolve, cache, path, recursive).files.Ok?
    ensures var first := CachedLookup(resolve, cache, path, recursive);
      CachedLookup(resolve', first.cache, path, recursive) == first
  {
  }
}
