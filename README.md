# devbox: reference search and environment export, modelled in Dafny

This project models two small cores of devbox.

`internal/patchpkg/search.go` holds the helpers the store-path patcher uses to
find references:

- `globEscape` turns a path into a glob that matches it literally;
- `searchGlobs` expands glob patterns into a stream of paths with no repeats;
- `searchFile` finds the matches of a regular expression in the first gigabyte
  of a file and returns them as `fileSlice` values;
- `reRemovedRefs` is the one concrete pattern: a Nix store path whose hash was
  overwritten with 32 `e`s;
- `envValues` and `searchEnv` search the values of the process environment.

`internal/devbox/envvars.go` holds the environment helpers:

- `exportify` serialises a map as sorted, escaped POSIX `export` lines;
- `exportifyElvish` is the Elvish counterpart;
- `addEnvIfNotPreviouslySetByDevbox` and `markEnvsAsSetByDevbox` update maps in
  place under the `__DEVBOX_SET_` marker-key convention.

The Go code changes things step by step, and the model keeps that form. The
loops are methods with loop invariants. A caller-owned Go map is a class
`EnvMap` whose `vars` field the methods update. The `seen` map of
`searchGlobs` is a field of the class `PathSeq` and is shared by every
iteration of one returned sequence. Each method is proved against a
specification function: `Escape`, `SortedKeys`, `LinesOf`/`JoinLines`,
`Merged`, `Marked`, `FindAll` or `Expand`. Lemmas then prove what the source
promises about those functions.

Modules:

| file | modules |
|---|---|
| `wrappers.dfy` | `Wrappers` (Option, Result), `Seqs` (elements, distinctness) |
| `escaping.dfy` | `Escaping`: backslash escaping of a character set, its length and its inverse |
| `glob_escape.dfy` | `GlobEscape`: `globEscape` and the literal a glob pattern stands for |
| `gostrings.dfy` | `GoStrings`: `strings.TrimSpace` and `strings.Join` |
| `string_order.dfy` | `StringOrder`: Go's string order and the sorted sequence of a set of keys |
| `shell_quoting.dfy` | `ShellQuoting`: how a POSIX shell reads text between double quotes |
| `envvars.dfy` | `EnvVars`: everything in `envvars.go` |
| `removed_refs.dfy` | `Bytes`, `Matching` (match locations), `RemovedRefs` (the `reRemovedRefs` matcher) |
| `search_file.dfy` | `SearchFile` (`searchFile`), `SearchEnv` (`envValues`, `searchEnv`) |
| `search_globs.dfy` | `SearchGlobs`: `searchGlobs` |

## Model

| member | source | states |
|---|---|---|
| GlobEscape.GlobEscape | internal/patchpkg/search.go:112-128 | Each of `*`, `?`, `\`, `[` gets exactly one backslash in front; every other character is copied in order. The length is `\|s\|` plus the number of metacharacters. The fast path returns `s` when there is no metacharacter and agrees with the loop. Dropping the escapes, or reading the result as a glob, gives back exactly `s`. |
| GlobEscape.LiteralOfEscape | internal/patchpkg/search.go:112-113 | The escaped pattern holds no wildcard, and the one name it matches is `s` itself. |
| Escaping.AppendEscaped | internal/patchpkg/search.go:119-126 | The character-by-character append loop leaves the buffer followed by the escape of the whole input. |
| Escaping.EscapeAppend | internal/patchpkg/search.go:120-126 | Escaping distributes over concatenation. |
| Escaping.EscapeSnoc | internal/patchpkg/search.go:120-126 | Escaping one more character appends that character's escape. |
| Escaping.EscapeLength | internal/patchpkg/search.go:119-126 | The escaped text is exactly one character longer per special character. |
| Escaping.EscapeIdentity | internal/patchpkg/search.go:115-117 | A text with no special character is its own escape, which justifies the fast path. |
| Escaping.EscapeChanges | internal/patchpkg/search.go:115-117 | Escaping changes every text that holds a special character, so the fast-path test is exact. |
| Escaping.CountPositive | internal/patchpkg/search.go:115 | A text that holds a special character has a positive count of them. |
| Escaping.DropEscapesRoundTrip | internal/patchpkg/search.go:112-127 | Dropping each escaping backslash gives back the original text when the backslash itself is escaped, or does not occur. |
| Escaping.EscapeAllEscaped | internal/devbox/envvars.go:39-47 | When the backslash is in the set, every special character of the escaped text stands behind an escaping backslash. |
| SearchGlobs.PathSeq.constructor | internal/patchpkg/search.go:90-91 | The sequence starts with an empty `seen` map, made once per call of `searchGlobs`. |
| SearchGlobs.PathSeq.Iterate | internal/patchpkg/search.go:92-109 | The paths yielded are a prefix of the expansion. The consumer asked for more after every one of them but the last. If the consumer never said stop, every pattern was globbed and the whole expansion was yielded. If it said stop, the iteration ended right after that path, and the patterns globbed are exactly those up to the one that produced it: no later pattern is globbed. `seen` grows by exactly the paths yielded. |
| SearchGlobs.PathSeq.YieldFresh | internal/patchpkg/search.go:98-107 | The inner loop yields a prefix of the pattern's unseen matches, each once, and marks each one seen. It yields all of them unless the consumer said stop, and it stops on the path where the consumer did. |
| SearchGlobs.FreshElems | internal/patchpkg/search.go:98-102 | A pattern's contribution has no repeats and holds exactly its matches that are not in `seen`. |
| SearchGlobs.ExpandElems | internal/patchpkg/search.go:87-102 | The expansion has no repeats. A path is in it exactly when the path is not in `seen` and some well-formed pattern's glob returns it. |
| SearchGlobs.IterationYieldsOnce | internal/patchpkg/search.go:87-102 | One iteration never yields a path twice, nor a path seen before it began. |
| SearchGlobs.NoRepeatAcrossIterations | internal/patchpkg/search.go:90-102 | Because `seen` outlives an iteration, a later iteration of the same sequence yields nothing an earlier one yielded. |
| SearchGlobs.ExpandSkipsBadPattern | internal/patchpkg/search.go:93-97 | A pattern with a syntax error, wherever it stands in the list, contributes nothing and does not end the expansion: the expansion equals that of the list without it. |
| SearchGlobs.ExpandSnoc | internal/patchpkg/search.go:93-98 | Taking one more pattern appends its fresh matches: those that neither `seen` nor the earlier patterns produced. |
| SearchGlobs.FreshStep | internal/patchpkg/search.go:98-102 | Taking one more match appends it exactly when it is neither seen nor already taken. |
| SearchGlobs.ExpandPrefix | internal/patchpkg/search.go:93-106 | Stopping after fewer patterns yields a prefix of the full expansion. |
| SearchGlobs.FreshPrefix | internal/patchpkg/search.go:98-106 | Stopping after fewer matches yields a prefix of the pattern's fresh matches. |
| SearchGlobs.FreshPrefixOfAll | internal/patchpkg/search.go:98-106 | The fresh matches among the first `i` are a prefix of all of them. |
| SearchGlobs.KeptGoingSnoc | internal/patchpkg/search.go:104 | A consumer that asked for more after each earlier path, and after one more, asked after all of them. |
| SearchGlobs.KeptGoingPrefix | internal/patchpkg/search.go:104-106 | The consumer asked for more after every path yielded but the last. |
| SearchGlobs.SeenIs | internal/patchpkg/search.go:99-102 | The `seen` set is its initial content plus the paths yielded. |
| SearchFile.Loaded | internal/patchpkg/search.go:45-46 | At most `1 << 30` bytes are loaded: the whole content when it fits, otherwise exactly its first `1 << 30` bytes. |
| SearchFile.SearchFile | internal/patchpkg/search.go:38-66 | An open failure or a read failure is an error. Otherwise there is one slice per match, in order, each with the path, offset = match start and data = the loaded bytes of the match. Slices lie inside the first `maxFileSize` bytes, ascend and do not overlap. No match gives no slices and no error. |
| SearchFile.SlicesOf | internal/patchpkg/search.go:56-64 | The fill loop puts at slot `i` the slice of location `i`: the path, the bytes from start to end, and the start. |
| SearchFile.SlicesInOrder | internal/patchpkg/search.go:51-65 | Slices cut at well-formed locations lie inside the data and follow one another without overlapping. |
| SearchFile.RemovedRefsSound | internal/patchpkg/search.go:51 | The `reRemovedRefs` matcher reports ranges inside the input, in increasing order and disjoint, as `FindAllIndex` promises. |
| SearchFile.RemovedRefsSlices | internal/patchpkg/search.go:51-63 | With `reRemovedRefs`, every slice found starts with 32 `e`s and a hyphen, and runs over the whole name that follows. |
| RemovedRefs.RunEnd | internal/patchpkg/search.go:22 | The run of name bytes is maximal: every byte up to its end is a name byte, and the byte at its end is not one, or the input ends there. |
| RemovedRefs.FindAllMatches | internal/patchpkg/search.go:20-22 | Every range found starts with exactly 32 `e`s, a hyphen and at least one name byte, and ends where the greedy run of name bytes ends. |
| RemovedRefs.FindAllOrdered | internal/patchpkg/search.go:22 | The ranges found lie inside the input, are disjoint and ascend. |
| RemovedRefs.FindAllIndexWellFormed | internal/patchpkg/search.go:22 | Over the whole input, the ranges are well formed and each one is a whole match. |
| RemovedRefs.FindAllCovers | internal/patchpkg/search.go:22 | No match is missed: every position where the pattern can start lies inside some range found. |
| RemovedRefs.FindAllLeftmost | internal/patchpkg/search.go:22 | No match starts before the first range or between two consecutive ranges, so each range is the leftmost match after the previous one. |
| RemovedRefs.ThirtyOneNotEnough | internal/patchpkg/search.go:20-22 | Thirty-one `e`s before the hyphen are not enough: no range starts there. |
| RemovedRefs.FindStringLeftmost | internal/patchpkg/search.go:79 | `FindString` is empty exactly when the pattern starts nowhere. Otherwise it is the greedy match at the leftmost starting position. |
| SearchEnv.Cut | internal/patchpkg/search.go:72 | When there is an `=`, the entry is the text before it, the `=` and the text after it, and the text before holds no `=`. When there is none, the text before is the whole entry and the text after is empty. |
| SearchEnv.ValueOfEntry | internal/patchpkg/search.go:68-75 | The value of `name=value` is `value` whenever the name holds no `=`, whatever the value holds. |
| SearchEnv.NoEqualsPrefix | internal/patchpkg/search.go:72 | A split at the first `=` is unique. |
| SearchEnv.EnvValues | internal/patchpkg/search.go:68-75 | There is one value per environment entry, in order: the text after the first `=`, or empty when there is none. |
| SearchEnv.SearchEnv | internal/patchpkg/search.go:77-85 | The result is empty exactly when every value has an empty match. Otherwise it is the match in the first value with a non-empty one. Only values are searched, never names. |
| EnvVars.MarkerOf | internal/devbox/envvars.go:18 | The marker of `k` is `__DEVBOX_SET_` followed by `k`. |
| EnvVars.MarkerOfUnique | internal/devbox/envvars.go:18 | A marker key is the marker of exactly one key: the text after the prefix. |
| EnvVars.EnvMap.constructor | internal/devbox/envvars.go:82 | A map holds the entries it is made with. |
| EnvVars.LinesOf | internal/devbox/envvars.go:35-49 | There is one line per key, in the keys' order, rendered from that key and its value. |
| EnvVars.SortKeys | internal/devbox/envvars.go:26-32 | The keys collected and sorted are the map's keys, each once, in ascending byte order. An empty map gives no keys. |
| EnvVars.CollectKeys | internal/devbox/envvars.go:26-31 | The keys array holds every key of the map exactly once. |
| EnvVars.InsertionSort | internal/devbox/envvars.go:32 | The sort leaves the array ascending and a permutation of what it held. |
| EnvVars.InsertDown | internal/devbox/envvars.go:32 | Inserting one element into the ascending prefix keeps it ascending and keeps the array a permutation. |
| EnvVars.Swap | internal/devbox/envvars.go:32 | Two elements are exchanged and nothing else changes. |
| EnvVars.AscendingIsStrict | internal/devbox/envvars.go:32 | An ascending array of distinct keys is strictly sorted. |
| EnvVars.AscendingChain | internal/devbox/envvars.go:32 | In an ascending array of distinct keys, every earlier key is less than every later one. |
| EnvVars.Exportify | internal/devbox/envvars.go:25-51 | The output is one `export k="v";` line per key, keys strictly ascending, with `$`, backquote, `"`, `\` and newline in a value each preceded by one backslash. Lines are joined by newlines with no trailing newline. An empty map gives `""`. |
| EnvVars.WriteExportLines | internal/devbox/envvars.go:34-49 | The builder holds each key's line followed by a newline, in key order. |
| EnvVars.ExportStep | internal/devbox/envvars.go:36-48 | One pass of the builder loop writes exactly the line of the next key. |
| EnvVars.ExportTrim | internal/devbox/envvars.go:50 | `strings.TrimSpace` removes only the final newline of the builder. |
| EnvVars.ExportLineEnds | internal/devbox/envvars.go:36-48 | An export line begins with `e` and ends with `;`, so trimming cannot eat into it. |
| EnvVars.ExportifyElvish | internal/devbox/envvars.go:53-74 | The output is one `set-env k "v"` line per key, keys strictly ascending, with only `"` escaped in a value. Lines are joined by newlines with no trailing newline. An empty map gives `""`. |
| EnvVars.WriteElvishLines | internal/devbox/envvars.go:60-72 | The buffer holds each key's Elvish line followed by a newline, in key order. |
| EnvVars.ElvishStep | internal/devbox/envvars.go:62-71 | One pass of the buffer loop writes exactly the line of the next key. |
| EnvVars.ElvishTrim | internal/devbox/envvars.go:73 | `strings.TrimSpace` removes only the final newline of the buffer. |
| EnvVars.ElvishLineEnds | internal/devbox/envvars.go:62-71 | An Elvish line begins with `s` and ends with `"`. |
| EnvVars.NextLine | internal/devbox/envvars.go:35-49 | Writing the next key's line and a newline extends the terminated lines by that key. |
| EnvVars.Merged | internal/devbox/envvars.go:76-88 | A key of `new` whose marker is absent from `existing` takes the value from `new`. A key whose marker is present keeps its old presence and value. A key not in `new` is untouched. |
| EnvVars.MergedAddsNoMarker | internal/devbox/envvars.go:78-88 | Merging adds no marker key: every marker key of the result was already in `existing`, with the same value. |
| EnvVars.AddEnvIfNotPreviouslySetByDevbox | internal/devbox/envvars.go:82-88 | The map `existing` becomes the merge of its old entries with the old entries of `new`, including when the two are the same map. |
| EnvVars.MergedWithItself | internal/devbox/envvars.go:82-88 | Adding a map to itself leaves it as it was. |
| EnvVars.MergedPointwise | internal/devbox/envvars.go:83-87 | A map that agrees with the merge key by key is the merge. |
| EnvVars.MarkedSetsMarkers | internal/devbox/envvars.go:90-96 | After marking, every original key is still present and its marker is `"1"`. |
| EnvVars.MarkedAt | internal/devbox/envvars.go:90-96 | A key is present after marking exactly when it was present before or it is the marker of an original key. The marker of an original key holds `"1"`. Every other key keeps its value, so an original value changes only when its key is the marker of another original key. This describes a run whose loop visits only the original keys (see "## Left out"). |
| EnvVars.MarkEnvsAsSetByDevbox | internal/devbox/envvars.go:90-96 | Each map in the list becomes its old entries plus the marker `"1"` of each of its old keys. |
| EnvVars.MarkEnv | internal/devbox/envvars.go:92-94 | One map gains the marker of each of its keys, set to `"1"`. |
| EnvVars.MarkStep | internal/devbox/envvars.go:93 | Marking one more key keeps the partial result in agreement with the full marking on the keys done so far. |
| EnvVars.MarkedPointwise | internal/devbox/envvars.go:91-95 | A map that agrees with the marking on every key is the marking. |
| EnvVars.MarkedAgreeAt | internal/devbox/envvars.go:91-95 | A map that agrees with the marking on every key agrees with it at each key. |
| StringOrder.LessIrreflexive | internal/devbox/envvars.go:32 | No key is less than itself. |
| StringOrder.LessTransitive | internal/devbox/envvars.go:32 | Go's string order is transitive. |
| StringOrder.LessTotal | internal/devbox/envvars.go:32 | Any two different keys are ordered one way or the other. |
| StringOrder.LessAsymmetric | internal/devbox/envvars.go:32 | No two keys are each less than the other. |
| StringOrder.LeastExists | internal/devbox/envvars.go:32 | A non-empty set of keys has a least element. |
| StringOrder.LeastOfTwo | internal/devbox/envvars.go:32 | The least key of a set is either the removed key or the least of the rest. |
| StringOrder.SortedKeys | internal/devbox/envvars.go:26-32 | The sorted keys are strictly ascending and hold exactly the keys of the set, each once. |
| StringOrder.SortedCons | internal/devbox/envvars.go:32 | The least key in front of the sorted rest is the sorted set. |
| StringOrder.ElemsCons | internal/devbox/envvars.go:32 | The elements of `[m] + rest` are `m` and the elements of `rest`. |
| StringOrder.SortedUnique | internal/devbox/envvars.go:32 | A strictly sorted sequence is determined by its set of elements, so any correct sort gives the same keys in the same order. |
| Seqs.DistinctByMultiset | internal/devbox/envvars.go:26-32 | A permutation of a sequence without repeats has none either. |
| Seqs.ElemsByMultiset | internal/devbox/envvars.go:26-32 | A permutation has the same elements. |
| Seqs.AtMostOnce | internal/devbox/envvars.go:26-32 | In a sequence without repeats, each element occurs at most once. |
| GoStrings.TrimLeft | internal/devbox/envvars.go:50 | The result is a suffix of the input. Everything dropped is white space, and the result does not start with white space. |
| GoStrings.TrimRight | internal/devbox/envvars.go:50 | The result is a prefix of the input. Everything dropped is white space, and the result does not end with white space. |
| GoStrings.TrimSpace | internal/devbox/envvars.go:50 | The result is a contiguous part of the input. Everything before and after it is white space, and it neither starts nor ends with white space. |
| GoStrings.TerminatedIsJoinPlusNewline | internal/devbox/envvars.go:48-50 | Lines each followed by a newline are the lines joined by newlines plus one final newline. |
| GoStrings.JoinSnoc | internal/devbox/envvars.go:48-50 | Joining one more line adds a newline and that line. |
| GoStrings.TrimTerminated | internal/devbox/envvars.go:50 | Trimming lines that start and end with non-space characters removes only the final newline. |
| GoStrings.JoinEnds | internal/devbox/envvars.go:50 | A join of non-empty lines starts with the first line's first character and ends with the last line's last character. |
| ShellQuoting.ReadEscaped | internal/devbox/envvars.go:39-47 | Escaping at least the characters that stay special inside double quotes makes a POSIX shell read the value back unchanged, provided no newline is escaped. |
| ShellQuoting.ExportEscapeRoundTrip | internal/devbox/envvars.go:20-47 | With the escaping in `exportify`, a POSIX shell reads every newline-free value back literally: no expansion, no substitution. |
| ShellQuoting.EscapedNewlineIsLost | internal/devbox/envvars.go:43-46 | A value that is a single newline is escaped to backslash-newline, which a POSIX shell reads back as the empty string. |
| ShellQuoting.EscapeForDoubleQuotes | internal/devbox/envvars.go:20-47 | Escaping only `$`, backquote, `"` and `\` makes a POSIX shell read every value back unchanged, newlines included. |

## Left out

- File I/O in `searchFile` is not modelled: `fs.FS.Open`, the `io.LimitedReader`/`io.ReadAll` mechanics and `defer f.Close()`. The file is given as `OpenFailed`, `ReadFailed` or its content, and the limited reader as `Loaded`. The error returned is a tag, not the Go error value.
- The general regular-expression engine is not modelled. `SearchFile` and `SearchEnv` take a matcher as a parameter; `SearchFile` requires it to report well-formed ranges, as `FindAllIndex` does. `reRemovedRefs` alone has a concrete matcher.
- `filepath.Glob` is an oracle from a pattern to its matches, with `None` for a syntax error. Its filesystem matching and its Windows behaviour are not modelled. `LiteralOf` models only the Unix reading of a backslash.
- `os.Environ` and the `sync.OnceValue` cache are not modelled. The environment entries are an input sequence, and `EnvValues` is recomputed on each search.
- The consumer of `searchGlobs` is a function of the paths yielded so far. A consumer with side effects of its own is not modelled.
- SearchGlobs.PathSeq.Iterate: `globbed` is a ghost count of the patterns handed to `glob`, and `glob` is a pure function, so the model makes no real filesystem calls. "No later pattern is globbed" is a statement about that count.
- `fileSlice.String` is formatting only and is not modelled.
- `offset` in `searchFile` is an `int64` in Go. It is not wrapped here, because every offset is below `1 << 30`, as `SearchFile` proves.
- `IsEnvEnabled` and `SkipInitHookEnvName` depend on `os.Environ`, `envpath.Stack` and `ProjectDirHash`; none of these is part of this model.
- internal/impl/global.go and internal/shenv/shell_elvish.go are not part of this model. They are orchestration and formatting glue around Nix, configuration files and the shell.
- Strings are sequences of Unicode scalar values. On invalid UTF-8, `globEscape` and `exportify` replace each bad byte with U+FFFD; that case is not modelled. File contents and environment entries are bytes; the `reRemovedRefs` character class excludes only ASCII bytes, so matching byte by byte gives the same ranges.
- `slices.Sort` and `sort.Strings` are pattern-defeating quicksort in Go; the model sorts with an insertion sort. `SortedUnique` shows that every correct sort of distinct keys gives the same order, so the output is the same.
- EnvVars.MarkEnvsAsSetByDevbox: Go may or may not visit keys that the loop adds to the map it is iterating. The model iterates over a snapshot of the original keys and so describes only runs that skip the added keys. A run that visits the added marker `__DEVBOX_SET_k` also writes `__DEVBOX_SET___DEVBOX_SET_k = "1"`, which can add a nested marker or overwrite an original key: `{k: "v", __DEVBOX_SET___DEVBOX_SET_k: "orig"}` can end with `"1"` in that key, where the model (and `MarkedAt`) keeps `"orig"`. The model also requires the maps in the list to be distinct objects: a map listed twice is marked twice, and the second pass iterates over the markers of the first, again adding nested markers.
- EnvVars.AddEnvIfNotPreviouslySetByDevbox: requires that no key of `new` start with `__DEVBOX_SET_`. Such a key can set the marker of another key of `new` partway through the loop, so the outcome would depend on Go's map iteration order. `existing` and `new` may be the same map, and `MergedWithItself` shows the map is then unchanged. `EnvMap` cannot be nil: writing to a nil `existing` map while `new` is non-empty panics in Go (envvars.go:85), and that panic is not modelled.
- `strings.Builder` and `bytes.Buffer` are modelled as a string that each write extends; their growth and capacity are not modelled.

## Findings

| source | as written | input that shows it | evidently intended | confidence | as-written member | corrected member |
|---|---|---|---|---|---|---|
| internal/devbox/envvars.go:43-46 | `exportify` puts a backslash before a newline in a value. Inside POSIX double quotes, backslash-newline is a line continuation and is removed (IEEE Std 1003.1, Shell Command Language, sections 2.2.1 and 2.2.3). | The map `{"K": "\n"}` gives `export K="\` followed by a newline and `";`. The shell sets `K` to the empty string. | Each value is read back as a literal string (the comment at envvars.go:20-24). A newline needs no escape inside double quotes, so only `$`, backquote, `"` and `\` should be escaped. | medium; not executed | ShellQuoting.EscapedNewlineIsLost | ShellQuoting.EscapeForDoubleQuotes |

`EnvVars.Exportify` models the code as written, so its output matches what devbox emits. `ShellQuoting.ExportEscapeRoundTrip` states the literal-reading promise for the values it holds for: every value without a newline.
