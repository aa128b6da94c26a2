/**
  The body of `Main` that builds the document (FileUniter/Program.cs:31-73):
  reading the three console answers, and folding the pattern list into one
  text, file by file, with read and resolution failures written inline.
  Console output, the result file and the clipboard loop are not part of it.
 */
module Aggregator {
  import opened Results
  import opened Text
  import opened Host
  import opened Resolver

  /** The delimiter used when the answer is missing or blank. */
  const DefaultDelimiter: string := "```"

  /** The fixed start of the line written for a file that cannot be read. */
  const ReadErrorPrefix: string := "Ошибка чтения файла "

  /** The three console answers, interpreted. */
  datatype Settings = Settings(links: seq<string>, delimiter: string, recursive: bool)

  /** The delimiter answer: `string.IsNullOrWhiteSpace` selects the default. */
  function DelimiterFrom(answer: Option<string>): (d: string)
    ensures answer.None? || IsBlank(answer.value) ==> d == DefaultDelimiter
    ensures answer.Some? && !IsBlank(answer.value) ==> d == answer.value
    ensures !IsBlank(d)
  {
    assert !IsWhiteSpace(DefaultDelimiter[0]);
    match answer
    case Some(s) => if IsBlank(s) then DefaultDelimiter else s
    case None => DefaultDelimiter
  }

  /** Reading the answers (FileUniter/Program.cs:31-39). `ReadLine` gives
      `None` at end of input; the first and third answers are used without a
      null test, so a missing one ends the run through the outer `catch`
      before any document exists. */
  function ParseInput(pathsLine: Option<string>, delimiterLine: Option<string>, recursiveLine: Option<string>): (s: Option<Settings>)
    ensures s.Some? <==> pathsLine.Some? && recursiveLine.Some?
    ensures s.Some? ==> |s.value.links| >= 1
    ensures s.Some? ==> Join(s.value.links, ";") == RemoveChar(pathsLine.value, '"')
    ensures s.Some? ==> forall k :: 0 <= k < |s.value.links| ==> '"' !in s.value.links[k] && ';' !in s.value.links[k]
    ensures s.Some? ==> s.value.delimiter == DelimiterFrom(delimiterLine)
    ensures s.Some? ==> (s.value.recursive <==> recursiveLine.value == "y" || recursiveLine.value == "Y")
  {
    match (pathsLine, recursiveLine)
    case (Some(paths), Some(answer)) =>
      var stripped := RemoveChar(paths, '"');
      var links := SplitOn(stripped, ";");
      assert forall k :: 0 <= k < |links| ==> '"' !in links[k] && ';' !in links[k] by {
        forall k | 0 <= k < |links|
          ensures '"' !in links[k] && ';' !in links[k]
        {
          ContainsSingle(links[k], ';');
          SliceOfJoinAvoids(links, ";", k, '"');
        }
      }
      RecursiveAnswer(answer);
      Some(Settings(links, DelimiterFrom(delimiterLine), ToLower(answer) == "y"))
    case _ => None
  }

  /** A part of a join holds no character the joined string lacks. */
  lemma {:induction false} SliceOfJoinAvoids(parts: seq<string>, sep: string, k: int, c: char)
    requires 0 <= k < |parts| && c !in Join(parts, sep)
    ensures c !in parts[k]
    decreases |parts|
  {
    if |parts| > 1 {
      assert Join(parts, sep) == parts[0] + sep + Join(parts[1..], sep);
      if k > 0 {
        SliceOfJoinAvoids(parts[1..], sep, k - 1, c);
      }
    }
  }

  /** `answer.ToLower() == "y"` holds for exactly the answers `y` and `Y`. */
  lemma RecursiveAnswer(answer: string)
    ensures ToLower(answer) == "y" <==> answer == "y" || answer == "Y"
  {
    if |answer| == 1 {
      assert ToLower(answer)[0] == LowerChar(answer[0]);
      if ToLower(answer) == "y" {
        assert LowerChar(answer[0]) == 'y';
      }
    }
  }

  // ------------------------------------------------------------ the document

  /** `StringBuilder.AppendLine(text)`. */
  function Line(text: string, newline: string): string
  {
    text + newline
  }

  /** The five lines written for a file that was read: its quoted name, the
      delimiter, the content as read, the delimiter again, a blank line. */
  function FileBlock(file: string, delimiter: string, content: string, newline: string): string
  {
    Line("\"" + file + "\":", newline) + Line(delimiter, newline) + Line(content, newline)
    + Line(delimiter, newline) + Line("", newline)
  }

  /** The one line written for a file that could not be read. */
  function ReadErrorLine(file: string, msg: string, newline: string): string
  {
    Line(ReadErrorPrefix + file + ": " + msg, newline)
  }

  /** Recovers a file's content from its block, given the header it should
      carry; `None` when the text is not such a block. */
  function BlockContent(block: string, file: string, delimiter: string, newline: string): Option<string>
  {
    var head := Line("\"" + file + "\":", newline) + Line(delimiter, newline);
    var tail := newline + Line(delimiter, newline) + newline;
    if |head| + |tail| <= |block| && block[..|head|] == head && block[|block| - |tail|..] == tail
    then Some(block[|head|..|block| - |tail|])
    else None
  }

  /** A file's content comes back out of its block exactly as it was read:
      nothing is trimmed or transformed. */
  lemma BlockRoundTrip(file: string, delimiter: string, content: string, newline: string)
    ensures BlockContent(FileBlock(file, delimiter, content, newline), file, delimiter, newline) == Some(content)
  {
    var head := Line("\"" + file + "\":", newline) + Line(delimiter, newline);
    var tail := newline + Line(delimiter, newline) + newline;
    var block := FileBlock(file, delimiter, content, newline);
    assert block == head + content + tail;
    assert block[..|head|] == head;
    assert block[|block| - |tail|..] == tail;
    assert block[|head|..|block| - |tail|] == content;
  }

  /** Everything the run's fold depends on besides the patterns. */
  datatype Env = Env(fs: FileSystem, resolve: Resolution, delimiter: string, recursive: bool, newline: string)

  /** What one resolved file adds (FileUniter/Program.cs:54-66). */
  function FileEntry(env: Env, file: string): string
  {
    match env.fs.readAllText(file)
    case Ok(content) => FileBlock(file, env.delimiter, content, env.newline)
    case Err(m) => ReadErrorLine(file, m, env.newline)
  }

  /** Each file adds either its block, from which the content it read can
      be recovered unchanged, or one line naming it and the read error. */
  lemma FileEntryIsBlockOrLine(env: Env, file: string)
    ensures env.fs.readAllText(file).Ok? ==>
      BlockContent(FileEntry(env, file), file, env.delimiter, env.newline) == Some(env.fs.readAllText(file).value)
    ensures env.fs.readAllText(file).Err? ==>
      FileEntry(env, file) == ReadErrorPrefix + file + ": " + env.fs.readAllText(file).msg + env.newline
  {
    match env.fs.readAllText(file)
    case Ok(content) => BlockRoundTrip(file, env.delimiter, content, env.newline);
    case Err(_) =>
  }

  /** What a resolved list adds: each file's entry, in the resolver's order. */
  function FileEntries(env: Env, files: seq<string>): string
    decreases |files|
  {
    if |files| == 0 then [] else FileEntry(env, files[0]) + FileEntries(env, files[1..])
  }

  /** What one non-blank pattern adds once it has been resolved, or has
      failed to (FileUniter/Program.cs:51-72). The diagnostic names the
      pattern as typed, before trimming. */
  function LinkOutput(env: Env, link: string, resolved: Result<seq<string>>): string
  {
    match resolved
    case Ok(files) => FileEntries(env, files)
    case Err(m) => Line(PathError(link, m), env.newline)
  }

  /** The document so far and the resolution cache. */
  datatype Run = Run(doc: string, cache: Cache)

  /** One turn of the loop over patterns (FileUniter/Program.cs:44-73). With
      the resolver `Uniter` supplies, `ResolverOf(fs, api)`, the lookup below
      is exactly `GetFilesByPattern(fs, api, ...)`. */
  function ProcessLink(env: Env, run: Run, link: string): (out: Run)
    ensures IsBlank(link) ==> out == run
    ensures |out.doc| >= |run.doc| && out.doc[..|run.doc|] == run.doc
  {
    if IsBlank(link) then run
    else
      var lookup := CachedLookup(env.resolve, run.cache, Trim(link), env.recursive);
      Run(run.doc + LinkOutput(env, link, lookup.files), lookup.cache)
  }

  /** The loop over all patterns, in order. */
  function Aggregate(env: Env, run: Run, links: seq<string>): Run
    decreases |links|
  {
    if |links| == 0 then run else Aggregate(env, ProcessLink(env, run, links[0]), links[1..])
  }

  /** What one pattern adds when it is resolved afresh, without a cache. */
  function FreshOutput(env: Env, link: string): string
  {
    if IsBlank(link) then [] else LinkOutput(env, link, env.resolve(Trim(link), env.recursive))
  }

  /** The document a cache-free resolver would produce: each pattern's
      output, in pattern order. */
  function Expected(env: Env, links: seq<string>): string
    decreases |links|
  {
    if |links| == 0 then [] else FreshOutput(env, links[0]) + Expected(env, links[1..])
  }

  // ------------------------------------------------------------- properties

  /** Over a sound cache, a pattern whose resolution fails adds exactly one
      diagnostic line, naming the pattern as typed, and leaves the cache
      alone: failures are never cached, so they are never served from it. */
  lemma FailedLinkAddsOneLine(env: Env, run: Run, link: string)
    requires CacheSound(env.resolve, run.cache) && !IsBlank(link)
    requires env.resolve(Trim(link), env.recursive).Err?
    ensures var m := env.resolve(Trim(link), env.recursive).msg;
      ProcessLink(env, run, link) == Run(run.doc + Line(PathError(link, m), env.newline), run.cache)
  {
  }

  /** A resolved list adds, for each file in the resolver's order, exactly
      its block or its read-error line. */
  lemma {:induction false} FileEntriesAppend(env: Env, a: seq<string>, b: seq<string>)
    ensures FileEntries(env, a + b) == FileEntries(env, a) + FileEntries(env, b)
    decreases |a|
  {
    if |a| == 0 {
      assert a + b == b;
    } else {
      assert (a + b)[0] == a[0];
      assert (a + b)[1..] == a[1..] + b;
      FileEntriesAppend(env, a[1..], b);
      ConcatAssoc(FileEntry(env, a[0]), FileEntries(env, a[1..]), FileEntries(env, b));
    }
  }

  /** The entry of the `i`-th resolved file sits between those of the files
      before it and those after it. */
  lemma FileEntriesInOrder(env: Env, files: seq<string>, i: int)
    requires 0 <= i < |files|
    ensures FileEntries(env, files)
         == FileEntries(env, files[..i]) + FileEntry(env, files[i]) + FileEntries(env, files[i + 1..])
  {
    assert files == files[..i] + files[i..];
    FileEntriesAppend(env, files[..i], files[i..]);
    assert files[i..][1..] == files[i + 1..];
  }

  /** The document only grows: what was written is never changed. */
  lemma {:induction false} AggregateAppendOnly(env: Env, run: Run, links: seq<string>)
    ensures var out := Aggregate(env, run, links).doc;
      |out| >= |run.doc| && out[..|run.doc|] == run.doc
    decreases |links|
  {
    if |links| > 0 {
      var next := ProcessLink(env, run, links[0]);
      AggregateAppendOnly(env, next, links[1..]);
      var out := Aggregate(env, run, links).doc;
      assert out[..|run.doc|] == out[..|next.doc|][..|run.doc|];
    }
  }

  /** Patterns are handled in order: running over `a + b` is running over
      `a` and then, from where that left off, over `b`. */
  lemma {:induction false} AggregateConcat(env: Env, run: Run, a: seq<string>, b: seq<string>)
    ensures Aggregate(env, run, a + b) == Aggregate(env, Aggregate(env, run, a), b)
    decreases |a|
  {
    if |a| == 0 {
      assert a + b == b;
    } else {
      assert (a + b)[0] == a[0];
      assert (a + b)[1..] == a[1..] + b;
      AggregateConcat(env, ProcessLink(env, run, a[0]), a[1..], b);
    }
  }

  /** The reference document of `a + b` is that of `a` followed by that of `b`. */
  lemma {:induction false} ExpectedAppend(env: Env, a: seq<string>, b: seq<string>)
    ensures Expected(env, a + b) == Expected(env, a) + Expected(env, b)
    decreases |a|
  {
    if |a| == 0 {
      assert a + b == b;
    } else {
      assert (a + b)[0] == a[0];
      assert (a + b)[1..] == a[1..] + b;
      ExpectedAppend(env, a[1..], b);
      ConcatAssoc(FreshOutput(env, a[0]), Expected(env, a[1..]), Expected(env, b));
    }
  }

  /** Over a sound cache, one turn writes what a fresh resolution would, and
      the cache stays sound. */
  lemma ProcessLinkMatchesFresh(env: Env, run: Run, link: string)
    requires CacheSound(env.resolve, run.cache)
    ensures ProcessLink(env, run, link).doc == run.doc + FreshOutput(env, link)
    ensures CacheSound(env.resolve, ProcessLink(env, run, link).cache)
  {
    if !IsBlank(link) {
      LookupIsTransparent(env.resolve, run.cache, Trim(link), env.recursive);
    }
  }

  /** Starting from a sound cache, the fold writes exactly the cache-free
      document after what was already there, and keeps the cache sound. */
  lemma {:induction false} AggregateMatchesExpected(env: Env, run: Run, links: seq<string>)
    requires CacheSound(env.resolve, run.cache)
    ensures Aggregate(env, run, links).doc == run.doc + Expected(env, links)
    ensures CacheSound(env.resolve, Aggregate(env, run, links).cache)
    decreases |links|
  {
    if |links| > 0 {
      var next := ProcessLink(env, run, links[0]);
      var first := FreshOutput(env, links[0]);
      var rest := Expected(env, links[1..]);
      ProcessLinkMatchesFresh(env, run, links[0]);
      AggregateMatchesExpected(env, next, links[1..]);
      assert Aggregate(env, run, links) == Aggregate(env, next, links[1..]);
      assert Expected(env, links) == first + rest;
      ConcatAssoc(run.doc, first, rest);
    }
  }

  /** The document of a whole run (FileUniter/Program.cs:31-73): `None` when
      a required answer is missing, and otherwise exactly the cache-free
      document of the patterns read. Each pattern goes through
      `GetFilesByPattern`, since that is the cached lookup over
      `ResolverOf(fs, api)`. */
  function Uniter(fs: FileSystem, api: PathApi, newline: string,
                  pathsLine: Option<string>, delimiterLine: Option<string>, recursiveLine: Option<string>): (doc: Option<string>)
    ensures doc.Some? <==> pathsLine.Some? && recursiveLine.Some?
    ensures doc.Some? ==>
      var s := ParseInput(pathsLine, delimiterLine, recursiveLine).value;
      doc.value == Expected(Env(fs, ResolverOf(fs, api), s.delimiter, s.recursive, newline), s.links)
  {
    match ParseInput(pathsLine, delimiterLine, recursiveLine)
    case None => None
    case Some(s) =>
      var env := Env(fs, ResolverOf(fs, api), s.delimiter, s.recursive, newline);
      var start := Run([], map[]);
      AggregateMatchesExpected(env, start, s.links);
      Some(Aggregate(env, start, s.links).doc)
  }

  /** Overlapping patterns are not merged: giving the same patterns twice
      writes their output twice. */
  lemma RepeatedPatternsRepeatOutput(env: Env, links: seq<string>)
    ensures Aggregate(env, Run([], map[]), links + links).doc
         == Expected(env, links) + Expected(env, links)
  {
    AggregateMatchesExpected(env, Run([], map[]), links + links);
    ExpectedAppend(env, links, links);
  }
}
