# scanit: the leaf logic of a parallel file-path search, in Dafny

scanit walks a directory tree with many threads. It tests every entry's path
against a regular expression and streams the matching paths to standard
output. This project models the sequential pieces that surround the walker:

- **Constants** (`constants.dfy`): the match-everything pattern `"."`, the
  platform start prefix, the list of system directories to avoid, the
  avoidance depth, the output buffer size, its flush threshold, the newline
  byte and the set of regex metacharacters. Values that the source picks with
  `cfg!(unix)` are functions of a `Platform` (`Unix | Windows`).
- **Config** (`config.dfy`): the immutable `SearchConfig` record and its
  constructor `New`.
- **ConvenienceFunctions** (`convenience_functions.dfy`):
  - `ResolveDirectory` chooses the root directory. The result of
    `current_dir()` comes in as a parameter: absent, not UTF-8, or a path.
  - `EscapeRegexString` escapes a pattern for a literal search. It is a loop
    proved against the function `Escaped`. The lemmas about `Escaped` cover:
    - the inverse `Unescape`, which gives a round trip;
    - the output length;
    - where each input character ends up in the output;
    - when escaping changes nothing, and when escaping twice equals escaping
      once.
- **ProcessEntries** (`process_entries.dfy`): the per-entry emit decision in
  full-path and short-name mode.
  - The compiled regex is a parameter of type `seq<Byte> -> bool`. `None` is
    the sentinel that matches everything.
  - The channel's sending end is a `Sender` class: a queue plus a flag saying
    whether the receiver is still connected.
- **Printer** (`printer.dfy`): `write_paths`. It writes each selected path
  followed by one newline byte through a `BufWriter` over standard output.
  - The buffer is flushed whenever it reaches `FLUSH_THRESHOLD`, and once more
    at the end.
  - The first I/O error stops the run.
  - Standard output is a `Stdout` class. It holds the bytes accepted so far,
    the `log` of every write offered to it, and a parameter `accepts(k)` that
    decides whether the k-th write succeeds. This stands for any failing sink.
  - Every `BufWriter` operation returns the writes it offered. On failure,
    the refused write is the last entry of the log, so the contracts locate
    the error in the log rather than choosing it.
  - The result is tied to `Framed`, the newline framing of the path list.
    `Lines` is its inverse for paths that contain no newline byte.

Paths are raw bytes (`Byte`, 0..255) end to end. Patterns and directory names
are Dafny strings (`seq<char>`), as in the source.

`printer.rs` declares its own copies of `BUFFER_SIZE`, `FLUSH_THRESHOLD` and
`NEWLINE` (src/printer.rs:11-13). They have the same values as in
`constants.rs`, so the model uses the ones in `Constants`. The
metacharacter list is also declared twice, in src/convenience_functions.rs:4
and src/constants.rs:31. The model keeps both copies and proves them equal.

`process_entries.rs` has no directory (`keep_dirs`) filter: both
`process_entry_*` functions send every matching entry, directories included.
`SearchConfig::new` stores the thread count unchanged, including 0; no minimum
is enforced there. The model follows the source.

## Model

| member | source | states |
|---|---|---|
| Constants.DotPatternIsOneDot | src/constants.rs:6 | the sentinel pattern is the one-character string "." |
| Constants.StartPrefix | src/constants.rs:11 | the start prefix is "/" exactly on unix, "C:/" otherwise; it is non-empty and ends with "/" |
| Constants.Avoid | src/constants.rs:14-20 | 6 distinct entries on unix, each "/" plus one component without "/"; 4 distinct entries on Windows, each starting "C:\" and containing no "/" |
| Constants.DepthCheck | src/constants.rs:24 | the avoidance depth is 1 on unix and 3 otherwise |
| Constants.FlushThresholdBelowCapacity | src/constants.rs:26-27 | FLUSH_THRESHOLD = BUFFER_SIZE - BUFFER_SIZE/20, strictly between 0 and BUFFER_SIZE |
| Constants.NewlineIsOneLineFeed | src/constants.rs:28 | NEWLINE is the single byte 10 |
| Constants.EscapeRegexFacts | src/constants.rs:31 | the metacharacter list has 14 distinct characters and includes the backslash |
| Config.New | src/config.rs:16-40 | every argument is stored unchanged in its field: both strings, all six flags, the thread count (0 included) and the optional depth (None stays None) |
| Config.NewRebuildsEveryConfig | src/config.rs:28-39 | every configuration is what New builds from its own fields, so New loses no information |
| ConvenienceFunctions.EscapeRegexMatchesConstants | src/convenience_functions.rs:4 | the module's own metacharacter list equals the one in constants.rs |
| ConvenienceFunctions.ResolveDirectory | src/convenience_functions.rs:11-21 | with cd: the current directory if it is obtainable and valid UTF-8, else "."; without cd: the given directory, else the platform start prefix |
| ConvenienceFunctions.CdIgnoresDirectoryArgument | src/convenience_functions.rs:12-16 | with cd the directory argument has no effect on the result |
| ConvenienceFunctions.NoCdIgnoresCurrentDir | src/convenience_functions.rs:17-18 | without cd the current directory has no effect on the result |
| ConvenienceFunctions.EscapeChar | src/convenience_functions.rs:43-46 | a metacharacter becomes a backslash followed by itself; any other character is copied alone |
| ConvenienceFunctions.BackslashIsMeta | src/convenience_functions.rs:4 | the backslash is itself a metacharacter |
| ConvenienceFunctions.EscapedConcat | src/convenience_functions.rs:42-47 | escaping works character by character: escaping a concatenation concatenates the escapings |
| ConvenienceFunctions.EscapedLength | src/convenience_functions.rs:40-47 | output length = input length + number of metacharacters in the input, hence at most twice the input length |
| ConvenienceFunctions.UnescapeEscaped | src/convenience_functions.rs:42-48 | deleting the inserted backslashes gives back the input, in order |
| ConvenienceFunctions.EscapedAt | src/convenience_functions.rs:42-47 | input character i lands at index i + (metacharacters among the first i+1 input characters); it sits one place after input character i-1, or two places with a backslash between them exactly when it is a metacharacter; the last input character ends the output |
| ConvenienceFunctions.CountMetaZeroIff | src/convenience_functions.rs:43 | the metacharacter count is 0 exactly when no character of the input is in the list |
| ConvenienceFunctions.EscapedUnchangedIff | src/convenience_functions.rs:42-48 | escaping leaves a string unchanged exactly when it contains no metacharacter |
| ConvenienceFunctions.CountMetaEscaped | src/convenience_functions.rs:43-46 | the escaped output holds twice as many metacharacters as the input |
| ConvenienceFunctions.EscapeTwiceIff | src/convenience_functions.rs:42-48 | escaping twice equals escaping once exactly when the input has no metacharacter |
| ConvenienceFunctions.BackslashDoubles | src/convenience_functions.rs:43-45 | "\" becomes "\\", and escaping that again changes it |
| ConvenienceFunctions.EscapeRegexString | src/convenience_functions.rs:36-49 | with the flag off, the output is the input; with it on, the loop builds exactly Escaped(input); the empty input gives the empty output either way |
| ProcessEntries.IsMatch | src/process_entries.rs:20 | an absent pattern matches every target; a present one matches exactly the targets its search accepts (the same test is made on the file name at line 40) |
| ProcessEntries.Sender.Send | src/process_entries.rs:24 | a send succeeds exactly while the receiver is connected, and then appends exactly the item at the end of the queue; a failed send leaves the queue unchanged |
| ProcessEntries.ProcessEntryFullpath | src/process_entries.rs:11-27 | the full path is tested (the None sentinel always matches); on a match exactly the full path is appended if the receiver is connected; Skip exactly when a match meets a disconnected receiver, Continue otherwise, never Quit; no match leaves the queue unchanged |
| ProcessEntries.AfterReceiverDropped | src/process_entries.rs:19-24 | once the receiver is dropped, a matching entry yields Skip and an entry that does not match yields Continue; nothing is ever queued |
| ProcessEntries.ProcessEntryShortpath | src/process_entries.rs:35-44 | only the file name is tested, but the full path is what is appended; Skip exactly when a match meets a disconnected receiver, Continue otherwise, never Quit; no match leaves the queue unchanged |
| Printer.Selected | src/printer.rs:20-21 | with a limit k, the first min(k, n) paths in order; with no limit, all paths |
| Printer.FramedConcat | src/printer.rs:22-23 | the newline framing of a concatenation is the concatenation of the framings |
| Printer.FramedSnoc | src/printer.rs:22-23 | writing one more path extends the output by that path and exactly one newline byte |
| Printer.LineEnd | src/printer.rs:22-23 | the first line of a byte string ends at its first newline byte or at its end |
| Printer.LineEndOfFramed | src/printer.rs:22-23 | in framed output, the first line ends right after the first path when that path has no newline byte |
| Printer.LinesOfFramed | src/printer.rs:30-32 | splitting the output at newline bytes gives back the written paths, provided no path contains a newline byte |
| Printer.Stdout.WriteAll | src/printer.rs:19 | every write offered to standard output is appended to its log; the bytes are taken whole exactly when `accepts` allows that write, otherwise nothing is taken and an error is returned |
| Printer.BufWriter.WithCapacity | src/printer.rs:19 | the writer starts with an empty buffer of the given capacity over the given standard output |
| Printer.BufWriter.FlushBuf | src/printer.rs:24 | an empty buffer writes nothing and succeeds; otherwise exactly one write, the whole buffer, is offered; if taken the buffer empties, if refused nothing changes and the error is returned |
| Printer.BufWriter.Flush | src/printer.rs:24 | the same as FlushBuf: at most one write, the whole buffer, and success exactly when it is taken |
| Printer.BufWriter.WriteAll | src/printer.rs:22 | all of the data is taken, into the buffer or standard output, or none of it is; success exactly when every write offered was taken, and on an error only the last write offered was refused; data that fits beside the buffer is buffered without any write |
| Printer.BufWriter.MakeRoom | src/printer.rs:22 | when the data fits beside the buffer nothing happens; otherwise the buffer is flushed and, on success, is empty; nothing is lost on either path |
| Printer.BufWriter.Place | src/printer.rs:22 | with room made, data as large as the capacity goes to standard output in one write and smaller data is appended to the buffer without any write |
| Printer.BufWriter.Drop | src/printer.rs:22-26 | leaving `write_paths` by an error drops the writer: a non-empty buffer is offered once more and stdout gains it exactly when that write is taken; an empty buffer changes nothing |
| Printer.WriteNewlined | src/printer.rs:22-23 | the path is written, then one newline byte; the second write is not attempted after the first fails; success exactly when every write offered was taken; when the old buffer, the path and the newline fit below the capacity, nothing is written and the buffer gains exactly the path and the newline |
| Printer.WriteLine | src/printer.rs:22-24 | one loop pass: the path and a newline, then a flush when the buffer has reached FLUSH_THRESHOLD; on success the buffer is below FLUSH_THRESHOLD; only the last write offered can have been refused; when the old buffer plus the line stays below FLUSH_THRESHOLD nothing is written and the buffer gains exactly the line; when it reaches FLUSH_THRESHOLD but fits below BUFFER_SIZE the pass makes exactly one write, of the old buffer plus the line, and on success the buffer is empty |
| Printer.WriteEach | src/printer.rs:21-25 | loop invariant: what stdout holds plus the buffer is the framing of the paths written so far, every write so far was taken, and the buffer stays below FLUSH_THRESHOLD; on an error the pass of path `failedAt` was the one refused, the paths before it were taken whole, and every write offered lies within the framing up to and including that path |
| Printer.FinalFlush | src/printer.rs:37 | the flush after the loop (also line 26): on success stdout holds exactly the framing of every path and the buffer is empty, so the writer's drop at the end of `write_paths` writes nothing; on failure the error is placed in the last path's pass: the paths before it were taken whole, and the refused write lies within the framing of every path |
| Printer.Dropped | src/printer.rs:22-26 | a failed pass followed by the drop's flush leaves standard output as FailedRun says: the writes before the first refusal, plus the refused bytes only if the drop's retry was taken |
| Printer.WritePaths | src/printer.rs:18-42 | success exactly when every write offered to stdout was taken, and then stdout holds the framed selected paths, in order; on failure the first write refused is write `refused` of the run, at most the drop's retry of the same bytes follows it, stdout holds the writes before it (plus the retried bytes if that retry was taken), and all of that lies within the framing up to and including the path being written |
## Left out

- Printer.BufWriter.WriteAll: a write to stdout is taken whole or not at all. The partial writes that `write_all` and `flush_buf` can make before failing are not modelled.
- Printer.BufWriter.Flush: only `flush_buf` is modelled. Stdout's own flush after it cannot fail in the model.
- Printer.WritePaths: the source iterates over `ArcStr` strings and writes their UTF-8 bytes. The model takes any byte strings, so it does not record that the written paths are valid UTF-8.
- ProcessEntries.Sender.Send: the channel is a sequential queue. Thread synchronisation between many senders and the receiver is not modelled.
- `get_threads` (src/convenience_functions.rs:28-32) and build.rs: they read the CPU count at build time from the environment. This is host plumbing.
- `current_dir()` and the platform conversions `to_raw_bytes()`/`to_str()` are OS calls. Their results are parameters: `CurrentDir` for the directory, and `DirEntry.path`/`DirEntry.fileName` as raw bytes.
- Regex and glob matching, regex compilation and case sensitivity: the compiled regex is an arbitrary predicate on bytes.
- src/main.rs (argument parsing and wiring), src/lib.rs and lib.rs (older thin wrappers over walking crates), and src/error.rs (error message strings): these are not part of this model.
- `find_files_iter`: the parallel walker, hidden-file policy, depth limit and pruning against `AVOID` are not among the files modelled. The avoid list and `DEPTH_CHECK` are modelled only as data. The Windows entries use `\` separators while `START_PREFIX` uses `/`. Whether the walker's comparison copes with that cannot be judged without the walker.
- `BufWriter`'s `panicked` flag: std sets it around each direct write to the inner writer and clears it afterwards. It stays set only if that write panics. The model has no counterpart for a panic, so dropping the writer always flushes in the model.
