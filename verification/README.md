# premark core in Dafny

premark is a markdown live-preview server in one Go file. A ticker re-globs the
`-w` patterns every 10 ms and adds each newly matched file to an fsnotify
watcher, announcing it with a "watching" line. A second loop switches on every
watcher event: pure writes go out on a channel, renamed files are watched
again, and removals are only reported. Each `/watch` WebSocket session reads
that channel and re-renders and pushes its one file when an event names it.
`/sidebar` lists the watch list, with directory paths first and then
case-insensitive order. `/markdown` serves one watched file.

This project models these sequential decision rules as pure functions over
immutable values:

- `base.dfy`, module `Base`: paths, duplicate-freedom, and the watcher's `Add`. The watch list is the key set of a map in fsnotify, so `Add` inserts only when the path is absent.
- `fields.dfy`, module `Fields`: `strings.Fields` with `unicode.IsSpace`.
- `reconcile.dfy`, module `Reconcile`: glob expansion and the add loop of one tick.
- `dispatch.dfy`, module `Dispatch`: the `switch event.Op` loop.
- `session.dfy`, module `Session`: the `/watch` select loop as a step function and a fold over an input trace.
- `sidebar.dfy`, module `Sidebar`: the listing order, the permutation, and the bold entry.
- `routes.dfy`, module `Routes`: the `/sidebar` and `/markdown` handlers.

The environment becomes parameters or input data. The glob matcher is a
function `string -> GlobResult`. The filesystem's answer to `Add` is a function
`Path -> bool`. The renderer (`markdownNode`) is `Path -> Rendered` in the
`/markdown` route. In a session, the render result and the socket writer's
answer travel with each input of the trace.

Notes on the code's behaviour, which the model follows:

- A `Remove` event only prints "no longer watching". The switch does not drop the path from the watch list. Any removal happens inside fsnotify and is not part of this model.
- The event channel is a single unbuffered channel. Each event goes to one receiving session, not to all of them. The model therefore describes one session over the inputs it actually receives.
- `/watch` does not check the watch list. Only `/markdown` redirects for a file that is not watched.
- A session ends only on the close signal (a close error seen by the reader goroutine) or on a close error from `NextWriter`. A failed write is logged and the session goes on.

## Model

| member | source | states |
|---|---|---|
| Fields.Fields | main.go:64 | every pattern taken from the flag is non-empty and free of white space, and together the patterns hold exactly the flag's non-space characters, in order |
| Fields.FieldsOfUnfields | main.go:64 | splitting a space-joined list of patterns gives back that list |
| Fields.FieldsSplit | main.go:64 | a prefix that is empty or ends in white space is split on its own: the fields of the whole are the prefix's fields followed by the rest's, so no field runs across white space |
| Fields.FieldsOfField | main.go:64 | a single run of non-space characters is one pattern, itself |
| Fields.FieldsOfWord | main.go:64 | a string that starts with a non-space character begins with one pattern that runs exactly up to its first white-space character (any of the `unicode.IsSpace` set, tab and newline included), followed by the patterns of the remainder |
| Fields.FieldThenSpace | main.go:64 | a run of non-space characters followed by any white-space character, or by nothing, is split off whole as one pattern |
| Reconcile.Expand | main.go:63-72 | expansion succeeds iff every pattern globs; then a path is in the file sequence iff some pattern matched it; a single pattern expands to exactly its matches, in the matcher's order; otherwise the reported failure is the first failing pattern, with its error |
| Reconcile.ExpandConcat | main.go:63-72 | the file sequence for a concatenation of pattern lists is the concatenation of their file sequences; with the single-pattern case of `Reconcile.Expand` this fixes the order and keeps the repeats that overlapping patterns produce |
| Reconcile.AddNew | main.go:74-85 | the add loop keeps the watch list free of duplicates, even when one pass yields a filename twice; it only appends, and only globbed files whose `Add` succeeded; it completes iff every unwatched filename can be added; after it completes every filename is watched and the announced paths are exactly the appended ones; on exit the failed path was announced last, is a filename, and is not added |
| Reconcile.Tick | main.go:61-86 | one tick completes iff every pattern of the flag globs and every unwatched match can be added; if any pattern of the flag fails to glob, the tick exits before anything is added or announced, and names the first failing pattern with its error; a completed tick watches every file matched by every pattern; every watched path was watched before or was matched by a pattern and could be added; the announced paths are new, are announced once each, and are exactly what was appended; a failed `Add` exits after announcing that path, which some pattern matched, without adding it |
| Reconcile.AddNewStopsAtFirstFailure | main.go:75-85 | a pass that exits is the add loop completed over the filenames before some position `k`, followed by the "watching" line of the filename at `k`, whose `Add` failed; so the loop stops at the first failure, adds nothing after it, and does not add the failed path |
| Reconcile.TickStopsAtFirstFailure | main.go:63-85 | a tick that exits on a failed `Add` globbed every pattern, and is the add loop completed over the matches before some position, followed by the "watching" line of the match at that position, whose `Add` failed |
| Reconcile.AddNewAllWatched | main.go:75-78 | a pass over filenames that are all watched changes nothing and announces nothing |
| Reconcile.AddNewIdempotent | main.go:74-85 | after the add loop completes, running it again over the same filenames adds no path and announces nothing |
| Reconcile.TickIdempotent | main.go:74-85 | after a tick that completes, a second tick with the same glob results adds no path and prints no "watching" line |
| Base.Watch | main.go:81 | adding a path to the watch list makes it watched, keeps every earlier path, and never creates a duplicate |
| Dispatch.Dispatch | main.go:92-105 | an event is forwarded iff its mask is exactly `Write`; `Rename` re-adds the path and a failed re-add only changes the outcome; `Remove` only reports; any other mask is ignored; the watch list changes only through a successful re-add after a rename |
| Dispatch.CombinedWriteIgnored | main.go:93-104 | a write combined with any other bit of the mask is neither forwarded nor acted on |
| Dispatch.DispatchAllSpec | main.go:92-105 | over any event sequence, exactly the pure writes are forwarded, in order; the watch list loses no path, stays duplicate-free, and gains only renamed paths that could be added |
| Session.Step | main.go:267-299 | a closed session does nothing; an active one closes iff the input is the close signal or a `NextWriter` close error for its own file; it pushes iff the input names its file, rendered, and was written, and the push is that HTML; events for other files change nothing |
| Session.ClosedIsFinal | main.go:269-270 | once closed, a session stays closed and pushes nothing, whatever inputs follow |
| Session.RunWithoutTermination | main.go:272-297 | with no terminating input, the session stays active and pushes exactly the rendered and written inputs for its own file, in order; render and writer failures skip the push |
| Session.RunUntilTermination | main.go:267-299 | at the first terminating input the session closes, having pushed exactly the deliverable inputs before it |
| Session.OtherFilesIgnored | main.go:273-275 | events that all name other files produce no push and leave the session active |
| Sidebar.Lower | main.go:200 | lower-casing keeps the length and maps each character by the letter case table |
| Sidebar.LexLessIrreflexive | main.go:200 | no string is `<` itself; with `Sidebar.LexLessTotal` and `Sidebar.LexLessTransitive`, Go's string `<` is a strict total order |
| Sidebar.LexLessTotal | main.go:200 | Go's string `<` relates any two distinct strings one way or the other |
| Sidebar.LexLessTransitive | main.go:200 | Go's string `<` is transitive |
| Sidebar.InOrderTransitive | main.go:200-204 | the two-key sidebar order is transitive |
| Sidebar.InOrderTotal | main.go:200-204 | any two paths are comparable in the two-key sidebar order |
| Sidebar.Insert | main.go:200-204 | inserting a path into an ordered listing keeps it ordered and adds exactly that path |
| Sidebar.SortForSidebar | main.go:199-204 | the listing is a permutation of the watch list; every path containing the separator precedes every path without one; within each group the lower-cased paths do not decrease |
| Sidebar.Entries | main.go:212-224 | one link per listed path, in order, pointing at `/?filename=<path>`, and bold exactly when the path equals the current file |
| Sidebar.Listing | main.go:199-224 | the sidebar's links are a permutation of the watch list in sidebar order, every link points at `/?filename=<path>`, and a link is bold iff it names the current file |
| Sidebar.BoldEntryUnique | main.go:212-216 | for a duplicate-free watch list, some link is bold iff the current file is watched, and no two links are bold |
| Routes.SidebarRoute | main.go:190-226 | an unparsable `Hx-Current-Url` gives a 500 with the parse error; otherwise a 200 listing: a permutation of the watch list in sidebar order, each link pointing at `/?filename=<path>`, bold iff it names the viewed file |
| Routes.MarkdownRoute | main.go:229-243 | redirects (308 to `/`) iff the file is not watched; a render error gives a 500 with its message; otherwise a 200 page with the file's HTML, connected to `/watch` for the same file |
| Routes.GlobbedFilesServed | main.go:75-85 | after a completed tick, `/markdown` does not redirect for any file the patterns matched |

## Left out

- Goroutines, the ticker, channels and `select` scheduling are left out. Each loop is a sequential step function over an explicit input sequence. The random choice `select` makes when both the close channel and the event channel are ready is left to the order of the trace.
- The event channel's delivery semantics are left out. It is one unbuffered channel whose receivers compete for each event. Which session receives which event is concurrency, and it is not modelled.
- fsnotify internals are left out. This includes which paths the library itself stops watching on remove or rename, and the order of `WatchList()`, which comes from a map. The model keeps insertion order, and the sidebar sorts anyway.
- Glob semantics (doublestar's `**`) are left out. The matcher is an arbitrary function.
- Markdown rendering (`os.ReadFile`, goldmark, `markdownNode`, main.go:310-322) is left out. It is an arbitrary function, or a value carried by the input, that yields HTML or an error.
- HTML construction, chi routing, static files, the index page (main.go:139-187), the WebSocket upgrade and the reader goroutine (main.go:249-265) are left out. The reader goroutine's close detection appears only as the `CloseSignal` input. Its busy loop on other read errors is not modelled.
- The image fallback handler (main.go:121-133) is left out. It depends on request headers, `filepath.Clean` and `http.ServeFile`.
- Flag parsing, the port and URL formatting, the watcher-creation and server-start failures (main.go:42-55, 303-307), the watcher error loop (main.go:108-113), and the exact text of log lines are left out.
- URL parsing of `Hx-Current-Url` is left out. The route takes the parse result.
- Reconcile.AddNew: each filesystem answer is a fixed function of the path during one pass. The model does not express files that appear or vanish in the middle of a pass.
- Dispatch.DispatchAllSpec: the filesystem's answer to `Add` is one fixed function over the whole event sequence.
- Sidebar.Lower: maps only ASCII and Latin-1 capitals, because the full Unicode case tables of `strings.ToLower` are not part of this model.
- Sidebar.SortForSidebar: the model sorts by insertion. Go's `sort.Slice` is unstable, so paths that differ only in case may come out in either order. The contract states the order every admissible result satisfies, not a particular algorithm.
- The path separator is fixed to `/`, as on Unix. On Windows `os.PathSeparator` is `\`.
- Session.Step: a write that fails after `NextWriter` succeeded is treated as no push. The bytes already sent on the socket are not modelled.
