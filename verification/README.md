# FileUniter in Dafny

FileUniter is a console tool. It reads a semicolon-separated list of path
patterns, a delimiter and a recursive-search flag. It resolves each pattern to
a list of files and concatenates the files' contents into one document. Each
file's content is wrapped between two delimiter lines. Read failures and
resolution failures are written into the document as diagnostic lines.

This project models the core of `FileUniter/Program.cs`:

- **Path normalisation** (`PathNorm`). Backslashes become `/`, then every run
  of slashes collapses to one.
- **Pattern resolution** (`Resolver`). A pattern takes one of three branches:
  - two-level: the normalised pattern contains the `/*/` marker, and every
    immediate subdirectory of the base is searched;
  - wildcard: the pattern as typed contains `*`, and it is cut at the last
    directory separator before the first `*`;
  - literal: anything else.
- **The result cache** (`Resolver`). It is keyed by `path|True` or
  `path|False` and is written only on success. The model passes it in and
  returns it, where the program keeps it in a static field.
- **Input parsing and the document fold of `Main`** (`Aggregator`). The fold
  takes the resolver as a function value, and `Uniter` supplies
  `Resolver.Resolve`. Its properties therefore hold for any resolver, and the
  cache is sound with respect to whichever one is used.

Supporting modules:

- `Results`: `Option` stands for a .NET null, and `Result` stands for a call
  that may throw.
- `Text`: the .NET string operations the program uses: `char.IsWhiteSpace`,
  `Trim`, `Contains`, `IndexOf`, `LastIndexOf`, `Split`, `Replace` and
  `ToLower`.
- `Host`: the file system and the `System.IO.Path` primitives, given as
  values. Every property holds for every file system and every path library:
  - `Directory.Exists` is membership in a set of directories;
  - `Directory.GetDirectories`, `Directory.GetFiles` and `File.ReadAllText`
    are functions that return a value or an error message;
  - `Path.GetDirectoryName`, `Path.GetFileName`, `Path.Combine`,
    `Path.DirectorySeparatorChar` and the current directory are parameters.
  The wildcard cut's guarantees assume the separator is `/` or `\`, as in
  .NET.

Where the code and a plain reading of its behaviour differ, the model follows
the code:

- The literal branch calls `Directory.GetFiles` without first testing that
  the directory exists (Program.cs:153-160). A literal path whose directory
  is missing therefore gives a diagnostic line, not an empty result. A
  literal path whose file is absent from an existing directory writes
  nothing at all.
- The cut in the wildcard branch searches the pattern *as typed* for the
  platform separator (Program.cs:131). On a platform whose separator is `\`,
  a forward-slash pattern such as `dir/*.log` has no cut point. Such a
  pattern falls back to `GetDirectoryName`/`GetFileName`.
- If `/*/` occurs more than once, `Split` cuts left to right without overlap.
  Any result other than exactly two parts gives an empty answer. For example,
  `a/*/*/b` splits into `a` and `*/b` and is searched.
- A resolution failure is wrapped by both `catch` blocks. The document line
  therefore reads `Ошибка обработки пути <entry>: Ошибка обработки пути
  <trimmed entry>: <message>`. A two-level failure carries one more prefix,
  naming the normalised path.

## Model

| member | source | states |
|---|---|---|
| `PathNorm.Collapse` | FileUniter/Program.cs:119 | The output never contains two neighbouring `/`, keeps the first character and is never longer than the input. |
| `PathNorm.CollapseIsRunReplacement` | FileUniter/Program.cs:119 | Collapsing equals the run-by-run reading of `Regex.Replace(s, "//+", "/")`: each maximal run of slashes becomes a single slash. |
| `PathNorm.CollapseKeepsNonSlash` | FileUniter/Program.cs:119 | Collapsing drops only slashes. The other characters survive in order, and a string has a slash after collapsing exactly when it had one before. |
| `PathNorm.NormalizeIsNormal` | FileUniter/Program.cs:119 | A normalised path contains no `\` and no `//`. |
| `PathNorm.NormalizeIdempotent` | FileUniter/Program.cs:119 | Normalising twice gives the same result as normalising once. |
| `PathNorm.NormalizeFixesNormal` | FileUniter/Program.cs:119 | A path with no `\` and no `//` is unchanged by normalisation. |
| `PathNorm.NormalizeKeepsOtherChars` | FileUniter/Program.cs:119 | Every character other than `/` and `\` occurs as often after normalisation as before; in particular `*` survives. |
| `Text.SplitOn` | FileUniter/Program.cs:176 | `Split` cuts at each separator occurrence, found left to right without overlap. The parts joined with the separator give back the input, and no part contains the separator. Each cut is the first occurrence after the previous one: every part but the last, followed by the separator, has its first occurrence at its end. There is one part exactly when the input has no separator. |
| `Text.TrimProperties` | FileUniter/Program.cs:46-51 | `Trim` gives the empty string exactly for a white-space-only entry. Otherwise it returns the contiguous slice between a white-space-only prefix and a white-space-only suffix, and that slice starts and ends with a non-white-space character. |
| `Text.IndexOfChar` | FileUniter/Program.cs:131 | `IndexOf('*')` returns the first index holding the character, or -1 exactly when the character is absent. |
| `Text.LastIndexOfChar` | FileUniter/Program.cs:131 | `LastIndexOf(sep, start)` returns an index at or before `start` that holds `sep`, with no `sep` after it up to `start`; it returns -1 when there is none. |
| `Text.RemoveChar` | FileUniter/Program.cs:31 | `Replace("\"", "")` leaves no `"` and keeps every other character's count. |
| `Text.RemoveCharAppend` | FileUniter/Program.cs:31 | Removing `"` from a concatenation is removing it from each part, so the kept characters stay in their original order. |
| `Resolver.Classify` | FileUniter/Program.cs:119-160 | The three branches are tested in order and are mutually exclusive: two-level when the normalised path contains `/*/`, else wildcard when the path as typed contains `*`, else literal. Because normalisation keeps every `*`, a pattern is literal exactly when it has no `*`, and a two-level pattern always contains `*`. |
| `Resolver.ClassifyIgnoresSpelling` | FileUniter/Program.cs:119-126 | A path and its normalised form take the same branch. |
| `Resolver.StarCut` | FileUniter/Program.cs:131-135 | The last separator at or before the first `*` exists exactly when a separator precedes that `*`. Cutting there loses nothing, leaves no `*` in the directory, and keeps the first `*` in the pattern. |
| `Resolver.SplitAtStar` | FileUniter/Program.cs:131-141 | When a separator precedes the first `*`, directory + separator + pattern is the path. The directory then has no `*`, the pattern holds that first `*` with no separator before it, and otherwise the platform's `GetDirectoryName`/`GetFileName` fallbacks are used. |
| `Resolver.WildcardResolution` | FileUniter/Program.cs:126-152 | A wildcard pattern whose directory part does not exist resolves to the empty list without error. Otherwise it resolves to `GetFiles`' answer for that directory and pattern, with errors re-thrown under the path. |
| `Resolver.LiteralResolution` | FileUniter/Program.cs:153-160 | A pattern without `*` resolves to `GetFiles`' answer for its directory and file name, with no existence test. Errors are re-thrown under the path. |
| `Resolver.Resolve` | FileUniter/Program.cs:166-169 | Every resolution error is re-thrown with a message that starts with `Ошибка обработки пути <path>: `. |
| `Resolver.GatherAppend` | FileUniter/Program.cs:195-217 | Searching two lists of subdirectories is searching each in turn, so a failing subdirectory does not affect the others. |
| `Resolver.GatherCounts` | FileUniter/Program.cs:195-219 | The merged list holds each file as many times as the subdirectories contribute it, as a multiset. |
| `Resolver.GatherMembers` | FileUniter/Program.cs:195-219 | A file is in the merged list exactly when some subdirectory contributes it. |
| `Resolver.TwoLevelResolution` | FileUniter/Program.cs:176-219 | A two-level pattern resolves to empty unless the normalised path splits into exactly two parts and the base directory exists. A failure to list the base is an error. Otherwise the result, as a multiset, is the union of the subdirectories' contributions. |
| `Resolver.SplitIsLeftToRight` | FileUniter/Program.cs:176 | `a/*/*/b` splits into exactly `a` and `*/b`. |
| `Resolver.CacheKeyInjective` | FileUniter/Program.cs:112 | Two (path, recursive) pairs with the same key `path|True` / `path|False` are the same pair. |
| `Resolver.CachedLookup` | FileUniter/Program.cs:112-116 | A hit returns the stored list and leaves the cache alone. A miss returns the fresh resolution. Only a success adds exactly its own key and stores the returned list under it. No existing entry changes. |
| `Resolver.GetFilesByPattern` | FileUniter/Program.cs:112-169 | A hit returns the stored list unchanged. A miss returns the resolution of the path. A failure leaves the cache unchanged, and its message starts with `Ошибка обработки пути <path>: `. |
| `Resolver.LookupIsTransparent` | FileUniter/Program.cs:112-164 | If every cache entry is what resolution would give now, a lookup answers exactly what resolution answers, and the cache keeps that property. |
| `Resolver.RepeatLookupHits` | FileUniter/Program.cs:112-116 | After a successful lookup, a second lookup of the same (path, recursive) returns exactly the first answer and changes nothing, whatever the file system does meanwhile. |
| `Aggregator.DelimiterFrom` | FileUniter/Program.cs:34-36 | A missing or white-space-only delimiter answer becomes "```", and any other answer is used verbatim. The delimiter is therefore never blank. |
| `Aggregator.RecursiveAnswer` | FileUniter/Program.cs:39 | The lower-cased answer equals `y` exactly for the answers `y` and `Y`. |
| `Aggregator.ParseInput` | FileUniter/Program.cs:31-39 | The run ends without a document when the first or third answer is missing. Otherwise the entries joined with `;` are the first answer with every `"` removed, and no entry contains `"` or `;`. The delimiter follows `DelimiterFrom`. The search is recursive iff the answer is `y` or `Y`. |
| `Aggregator.BlockRoundTrip` | FileUniter/Program.cs:56-61 | Removing a file block's header line, its two delimiter lines and its blank line gives back the content exactly. |
| `Aggregator.FileEntryIsBlockOrLine` | FileUniter/Program.cs:54-66 | A readable file adds a block whose content decodes to what was read. An unreadable one adds exactly one line naming it and the error. |
| `Aggregator.FileEntriesAppend` | FileUniter/Program.cs:52-67 | The entries for a concatenation of file lists are the entries for each list, in order. |
| `Aggregator.FileEntriesInOrder` | FileUniter/Program.cs:52-67 | The `i`-th resolved file's entry sits after the entries of the files before it and before those of the files after it. |
| `Aggregator.ProcessLink` | FileUniter/Program.cs:44-73 | A white-space-only entry adds nothing and leaves the cache alone. No entry ever changes what is already in the document. |
| `Aggregator.FailedLinkAddsOneLine` | FileUniter/Program.cs:69-72 | With a sound cache, an entry whose resolution fails adds exactly one line, naming the entry as typed before trimming. The cache is left alone, since failures are never stored. |
| `Aggregator.AggregateAppendOnly` | FileUniter/Program.cs:41-73 | The document only grows: the text written before a run of entries is a prefix of the text after it. |
| `Aggregator.AggregateConcat` | FileUniter/Program.cs:44-73 | Entries are handled in order. Processing `a + b` means processing `a`, then processing `b` from where `a` left off. |
| `Aggregator.ProcessLinkMatchesFresh` | FileUniter/Program.cs:49-51 | With a sound cache, one entry adds exactly what a fresh, cache-free resolution would add. |
| `Aggregator.AggregateMatchesExpected` | FileUniter/Program.cs:44-73 | Starting from a sound cache, the fold appends exactly the cache-free document: each entry's output in entry order. |
| `Aggregator.Uniter` | FileUniter/Program.cs:31-73 | A whole run yields a document iff the first and third answers are present. That document equals the cache-free document of the parsed entries. |
| `Aggregator.RepeatedPatternsRepeatOutput` | FileUniter/Program.cs:44-73 | Patterns are not deduplicated: giving the same entries twice writes their output twice. |

## Left out

- Console prompts, `Console.Clear`, `TreatControlCAsInput` and the endless key-reading loop (Program.cs:75-99) are left out. They are interactive I/O with no result to state.
- Clipboard access through `user32.dll` and the `Marshal` buffer handling (Program.cs:18-25, 87-91) are left out. They are foreign operating-system calls.
- Writing `results.txt` and echoing the document are left out, because they are plain output. `File.ReadAllText` is a given function, and text encodings are not modelled.
- The glob semantics of `Directory.GetFiles` are not modelled; it stays an uninterpreted function. The same holds for `Directory.GetDirectories`, `Path.GetDirectoryName`, `Path.GetFileName`, `Path.Combine` and `Directory.GetCurrentDirectory`, because they are platform library behaviour.
- Exceptions thrown by the `Path` functions, for example on invalid path characters, are not modelled. Those functions are total here.
- `Parallel.ForEach` into a `ConcurrentBag` (Program.cs:195-217) is modelled as a sequential concatenation in `GetDirectories` order. Its order is unspecified in the program. The properties about it are therefore stated for the multiset and for membership.
- Aggregator.RecursiveAnswer: `ToLower` is modelled on the ASCII letters only. Culture-specific lower-casing rules are not modelled.
- The top-level `catch` prints `Ошибка: <message>` when the first or third answer is missing. It is modelled as the absence of a document, and the message text is not modelled.
- Exception messages are carried as opaque strings. Only the prefixes the program adds itself are modelled.
- `Environment.NewLine` is a parameter.
- Aggregator.Uniter: it models one run with a fresh cache. The program's cache is a static field, and it lives exactly one run. The whole run reads one `FileSystem` value, a snapshot that does not change while the run goes on. Uniter's equality with the cache-free document rests on that snapshot. If the file system changed between two occurrences of the same trimmed entry, the program would serve the second one the first one's stored list (Program.cs:113-116), as `Resolver.RepeatLookupHits` shows. Concurrent changes to the file system are not modelled.
