# A verified model of razvhost

razvhost is a virtual-hosting reverse proxy: it routes a request by host and path to one of
several handlers, follows its configuration file while it runs, and rewrites paths and links so
that upstream servers can be mounted anywhere. It also ships the Go/JavaScript bridge with which
it serves WebAssembly programs. This project models those parts in Dafny and proves what they
promise.

Run `dafny verify dfyconfig.toml` to check everything.

## How it is built

* **Routing.** `RouterModel` describes the router as a value: entry objects in creation order
  (`heap`), the slice that requests scan (`order`) and the path map (`index`). `Mux` is the real
  thing: entry objects changed in place, a slice with spare capacity whose insertion moves the
  tail over itself, and a map; every method is tied to the same operation on the value. `Routing`
  says which entries may answer, `Matching` when one matches, `Precedence` which one does, `LiveView` that the whole is a map,
  `RoundRobin` how fair the 32-bit rotation counter is.
* **Live reload.** `ConfigModel` is the diff and the event batch, `Reload` replays batches on the
  router over whole runs, `MakeBeforeBreak` adds requests between the events, `UpdateProtocol` is
  the step relation of the concurrent `handleUpdate` goroutines, `LastContent` says which content
  they end up with, `Delivery` what the router makes of the batches in any order, and `Server` is
  the event loop.
* **The Go/JS bridge.** `LinearMemory`, `ReferenceTable`, `ArgumentLayout` and the class
  `GoBridge.Go`: reference counting with a free pool, NaN-boxed words, and the argument vector.
* **Rewriting.** `HtmlTokens` prints tags and reads them back, `HtmlStreamer` hands out the
  printed tokens in pieces, `HtmlReading` reads a whole rendering back, `PathRewriting` and
  `UrlPaths` are the path arithmetic, `LinkFollowing` follows a rewritten link through the
  server's decoding back to the upstream, and `ResponseWriter` is the step relation of handler,
  pipe and copier.
* **Directory listing.** `DirectoryListing`: two stable sorts in place.

`GoStrings` and `MachineWords` hold what the others share.

Conventions. A `char` stands for one byte of a Go string. `filepath.Match`, `url.Parse`, the HTML
tokenizer, content sniffing, the handler factory and the text encoder are function parameters;
`html.EscapeString` and the escaping and decoding of URL paths are written out. A config entry's target is kept as its
printed form, which is all the code compares, and the factory is a function of the entry. Methods
of `Mux` are taken as atomic, as its lock makes them; two requests that hold the read lock
together differ only in the order of two atomic increments. Reference counts are unbounded; the
references live in 4 GiB of memory, so they stay far below 2^53.

## What came out of it

* Which entry answers a request is decided by the live paths only if there is at most one
  *contender*. `Routing.RoutesAreExactlyContenders` shows that the contenders are exactly the
  answers that some history produces. With literal paths there is never more than one. Among
  several, the one in front in the slice answers (`Precedence.RouteIsFrontmost`), entries never
  change places, and a new path gets in front of an older one if and only if some entry at or
  before that one, live or dead, makes the insertion loop stop (`Precedence.NewcomerInFrontIff`).
  So contenders of one kind go by age (`Precedence.OldestOfItsKindAnswers`), and between a literal
  and a wildcard it depends on a shorter entry of the younger one's kind
  (`Precedence.LiteralAgainstWildcard`). `Precedence.DeadEntryDecides` is a pair of histories with
  the same live paths, added in the same order, in which an entry removed long ago decides.
* A reload follows the configuration exactly if and only if no entry changes its multiplicity
  while it stays configured (`Reload.LiveReloadExactIff`). `Reload.DuplicateStaysBehind` is the
  concrete run in which a handler is left over. With batches in lock
  order nothing configured is ever lost (`Reload.NeverLost`).
* Each batch is sent by its own goroutine, so the channel may reorder batches. For duplicate-free
  contents that never costs a configured entry its handler (`Delivery.AnyOrderCovers`), and it
  leaves a removed one behind if and only if, for some servable entry, removals ran ahead of what
  was there and of the additions (`Delivery.AnyOrderExactIff`); for two batches that swap places,
  if and only if a servable entry came with the first and went with the second
  (`Delivery.SwapExactIff`). With duplicates a configured entry can be lost
  (`Delivery.DuplicateLostOutOfOrder`); `Delivery.AnyOrderBalance` says exactly when it is.
* The comment in `handleUpdate` says that only the last of several updates is handled. That is
  true of the debounce check (`UpdateProtocol.LastNumberPasses`), but the file is read before the
  lock is taken, and `UpdateProtocol.StaleReadCanWin` is a run that ends with the old content
  configured. The content configured is the file's if it was read after the last change and, when
  the file never had that content before, only then (`LastContent.LastContentIff`). That is so
  whenever commits come in the order of the reads and somebody reads after the last change
  (`LastContent.OrderedCommitsIff`), and so whenever nobody passes the check while another is
  still reading or committing, and a file event follows the last change
  (`LastContent.LastUpdateWins`, `Delivery.FileIsServed`).
* A link to an upstream path, rewritten and followed, shows the upstream the same path, encoding
  and query as a request for that path itself if and only if the condition of
  `LinkFollowing.RewriteStripIff` holds. The server decodes the request before it routes and
  strips it, so a host path with an escape in it is never found again
  (`LinkFollowing.EscapedHostPathIsMissed`), and behind a host path with a slash at its end an
  escaped slash is lost (`LinkFollowing.EscapedSlashIsLost`). A rewritten location that starts
  with two slashes names another host (`LinkFollowing.DoubleSlashLeaves`); when it does, is
  `PathRewriting.RewrittenNamesHostIff`.
* The escaped path of a request stays in step with the decoded one exactly as
  `PathRewriting.StripInStepIff` says. In the usual case, no raw path at all, it falls out of step
  when the host path ends with a slash and more follows (`PathRewriting.StripAddsRawSlash`).
* Turns of the handlers of an entry never differ by more than one if and only if their number
  divides 2^32 (`RoundRobin.FairIffDivides`); otherwise every wrap of the counter can cost one
  turn (`RoundRobin.WrapsAreTight`), and no more (`RoundRobin.RunIsFair`).
* Re-printed HTML reads back as the same tokens if and only if comments, doctypes and the texts of
  elements like title, script and iframe survive (`HtmlReading.StreamReadsBackIff`). They do not
  always: a title is printed as the tokenizer has unescaped it, text of elements that the code
  does not count is escaped although nobody unescapes it, and a stray end tag makes the counter
  of open elements negative, so that the next style sheet is escaped as well
  (`HtmlReading.ElementReadsBackIff`).

## Model

| member | source | states |
|---|---|---|
| RouterModel.InsertionFits | pkg/mux/mux.go:40-49 | the position where the insertion loop stops suits the new path on both sides: everything before it may precede it, everything after may follow |
| RouterModel.AddKeepsInv | pkg/mux/mux.go:18-52 | adding keeps the slice order, one slice reference per entry object, and a path map that names exactly the entries with handlers |
| RouterModel.RemoveKeepsInv | pkg/mux/mux.go:54-65 | removing keeps the same invariant, although emptied entries stay in the slice |
| RouterModel.ReachableInv | pkg/mux/mux.go:12-65 | the invariant holds after every history of additions, removals and requests |
| Routing.ScanFindsFirst | pkg/mux/mux.go:97-103 | the request scan yields the first entry that matches and has a handler, or none if there is none |
| Routing.RouteIsContender | pkg/mux/mux.go:93-130 | a request is refused iff no live path matches; otherwise the longest live literal prefix answers, or a wildcard of maximal length that is at least as long as every matching literal |
| Routing.LiteralRouteNeedsOnlyLiveSet | pkg/mux/mux.go:93-122 | without a matching wildcard the answering path depends on the live paths alone, not on history or dead entries |
| Routing.FirstEntryEverWins | pkg/mux/mux.go:40-51 | the very first entry of the router answers whenever it is a contender, whatever happened later |
| Routing.RoutesAreExactlyContenders | pkg/mux/mux.go:18-105 | a path answers under some history with the given live paths iff it is a contender |
| Precedence.RouteIsFrontmost | pkg/mux/mux.go:93-106 | an entry answers iff it matches, has a handler and is in front of every other such entry |
| Precedence.NewcomerInFrontIff | pkg/mux/mux.go:40-51 | a new path is in front of an older entry, at every later time, iff some entry at or before that one, live or dead, is shorter than it and not a literal passed by a wildcard |
| Precedence.RunKeepsBefore | pkg/mux/mux.go:18-65 | two entries never change places |
| Precedence.ContestIsDecidedOnArrival | pkg/mux/mux.go:40-51 | of a new path and an older entry that both could answer, the one behind never does and the one in front does if they are alone |
| Precedence.LiteralAgainstWildcard | pkg/mux/mux.go:40-51 | of a literal and a wildcard that could both answer, the younger wins iff, when it was added, a shorter entry of its own kind stood in front of the older one or it is a literal longer than the wildcard |
| Precedence.ContendersByShorterEntry | pkg/mux/mux.go:40-51 | between contenders only the shorter entry counts, since a wildcard that contends is as long as the literal |
| Precedence.OldestOfItsKindAnswers | pkg/mux/mux.go:40-51 | over every history, the entry that answers is the oldest contender of its kind |
| Precedence.DeadEntryDecides | pkg/mux/mux.go:54-65 | two histories with the same live paths added in the same order answer differently, because one of them once had another entry |
| Matching.MatchesIff | pkg/mux/mux.go:116-130 | a literal matches the requests it is a prefix of; a path with one of the characters *, ?, [ or ] matches iff the glob accepts the front of the request that ends at a slash or at the end and has as many slashes as the path |
| Matching.WildcardIff | pkg/mux/mux.go:34 | a path is a wildcard iff it holds one of the four characters |
| Matching.RefusedIff | pkg/mux/mux.go:93-106 | with fewer than 2^32 handlers each, a request is refused iff no path of the map matches it |
| GoStrings.JoinedPiecesEndAtSlash | pkg/mux/mux.go:123-128 | what a wildcard is matched against is a prefix of the request path that stops at a segment boundary and has as many segments as asked for |
| LiveView.RunRefinesMap | pkg/mux/mux.go:18-65 | over every history, slice, map and entries together behave as one map from paths to handler lists |
| LiveView.RunContinues | pkg/mux/mux.go:18-65 | entry objects keep path and relative slice position; one that has lost its last handler never gets another |
| LiveView.AddCopies | pkg/mux/mux.go:140-142 | an addition adds one handler to its own (path, id) pair and to no other |
| LiveView.RemoveCopies | pkg/mux/mux.go:144-151 | a removal takes one handler from its own pair if there is one, and touches no other |
| LiveView.LiveIffSomeCopy | pkg/mux/mux.go:58-64 | a path is live iff one of its pairs has a handler |
| RoundRobin.Fairness | pkg/mux/mux.go:153-160 | over any run of requests handler turns differ by at most one plus the number of counter wraps, and by at most one if the handler count divides 2^32 |
| RoundRobin.FairIffDivides | pkg/mux/mux.go:153-160 | turns differ by at most one over every run from every counter value iff the handler count divides 2^32 |
| RoundRobin.WrapRepeatsFirst | pkg/mux/mux.go:158-159 | for every other count, the requests around a wrap give handler 0 two turns more than another |
| RoundRobin.WrapsAreTight | pkg/mux/mux.go:158-159 | for every other count and every number w of wraps there is a run with w wraps in which one handler gets 1 + w turns more than another |
| RoundRobin.WrapRepeatsHandler | pkg/mux/mux.go:158-159 | with three handlers two requests in a row go to the same one |
| RoundRobin.NthReply | pkg/mux/mux.go:153-160 | in any run, the n-th request that an entry with steady handlers answers is given the handler at the wrapping counter plus n, modulo their number |
| RoundRobin.RepliesAreFair | pkg/mux/mux.go:93-160 | in any run, how often two handlers of such an entry are returned differs by at most one plus the number of counter wraps, and by at most one if their number divides 2^32 |
| RoundRobin.TurnsAreTallied | pkg/mux/mux.go:93-105 | in any run, an entry whose handlers stay put deals its requests by the rotation counter alone |
| RoundRobin.RunIsFair | pkg/mux/mux.go:93-160 | the fairness bound inside every run of requests and updates |
| Mux.MuxEntry.constructor | pkg/mux/mux.go:32-36 | a new entry has its path, no handlers and counter zero, and its wildcard flag and segments belong to the path |
| Mux.MuxEntry.Match | pkg/mux/mux.go:116-130 | the stored flag and segments give the same answer as matching the path itself, which is Matching.MatchesIff |
| Mux.MuxEntry.Add | pkg/mux/mux.go:140-142 | the handler is appended and nothing else changes |
| Mux.MuxEntry.Remove | pkg/mux/mux.go:144-151 | the first handler with the id is removed and nothing else changes |
| Mux.MuxEntry.Handler | pkg/mux/mux.go:153-160 | the wrapping counter advances by one and selects the handler; an entry without handlers answers none and keeps its counter |
| Mux.EntrySlice.Insert | pkg/mux/mux.go:45-46 | the overlapping move leaves the old elements in order with the new one in its place, with or without spare capacity |
| Mux.EntrySlice.Append | pkg/mux/mux.go:51 | appending keeps the old elements and adds the new one at the end |
| Mux.Mux.PlaceInSlice | pkg/mux/mux.go:40-51 | the insertion loop puts the entry exactly where the router value says |
| Mux.Mux.Add | pkg/mux/mux.go:18-52 | objects, slice and map change as addition changes the router value, and stay valid |
| Mux.Mux.Remove | pkg/mux/mux.go:54-65 | objects and map change as removal changes the router value, and stay valid |
| Mux.Mux.Handler | pkg/mux/mux.go:93-106 | the handler returned and the one counter moved are those of the router value, which are RoundRobin.NthReply |
| ConfigModel.Contains | pkg/config/config.go:242-249 | finds an entry iff hostname and printed target are present |
| ConfigModel.ToEvents | pkg/config/config.go:251-260 | one event per entry, in order |
| ConfigModel.MissingCount | pkg/config/config.go:128-140 | the diff drops entries present on the other side and keeps every occurrence of the others |
| ConfigModel.Config.GetConfigChange | pkg/config/config.go:128-140 | the two append loops yield what is only in the new and only in the old entries |
| ConfigModel.Config.Update | pkg/config/config.go:114-125 | the critical section remembers the new entries and emits ups before downs against the old ones |
| Server.Server.ProcessEvent | pkg/server/server.go:98-115 | one event changes the mux as it changes the router value; a factory error changes nothing |
| Server.Server.ProcessEvents | pkg/server/server.go:91-95 | a batch changes the mux as its replay changes the router value |
| Server.Server.Lookup | pkg/server/server.go:125-129 | a request is answered by what the mux finds for host and path put together |
| Reload.BatchCopies | pkg/config/config.go:114-140 | the exact number of handlers of any pair after a reload, for any two configurations |
| Reload.ReloadExactIff | pkg/config/config.go:114-140 | from an exact state, a reload is exact iff no staying servable entry changes its multiplicity |
| Reload.LiveReloadExactIff | pkg/config/config.go:65-125 | the router follows a whole run of configurations exactly iff multiplicities are steady |
| Reload.LiveReloadExact | pkg/server/server.go:91-115 | for duplicate-free configurations the live pairs are always the servable entries of the current one, each once |
| Reload.DuplicateStaysBehind | pkg/config/config.go:128-140 | after [A, A], [A] and [] one handler of A is still live |
| Reload.NeverLost | pkg/config/config.go:114-140 | for arbitrary configurations every servable entry of the current one has a live handler |
| Reload.DownOfAbsentIsNoop | pkg/mux/mux.go:54-65 | a down event for a pair without handlers changes nothing |
| MakeBeforeBreak.TrafficDoesNotDisturbReload | pkg/server/server.go:91-131 | requests served between the events leave the outcome of a batch unchanged |
| MakeBeforeBreak.HostNeverDown | pkg/config/config.go:124 | with ups before downs a host with an old and a new servable entry is live after every step |
| MakeBeforeBreak.ReloadWithoutInterruption | pkg/config/config.go:114-125 | throughout a reload such a host keeps its entry object, its relative slice position and a rotation counter moved by its requests only |
| MakeBeforeBreak.ReplayFromFactory | pkg/server/server.go:106-114 | every registered handler is the one the factory made for its own hostname and target |
| UpdateProtocol.CheckPassesIff | pkg/config/config.go:101-106 | in every run, of any length, a goroutine passes the debounce check iff the increments since its own are a multiple of 2^32, that is none if there were fewer |
| UpdateProtocol.ExecKeepsCounters | pkg/config/config.go:101-106 | the wrapping counter and the numbers taken from it agree with the increments made, with no bound on them |
| UpdateProtocol.LastNumberPasses | pkg/config/config.go:101-106 | in every run whoever is turned away has a later number behind it, so the last number never is |
| UpdateProtocol.PassesAreSpacedOut | pkg/config/config.go:101-106 | if numbers i < j both pass, i's check comes before j's increment, or 2^32 increments after its own |
| UpdateProtocol.FourTurnsFinish | pkg/config/config.go:100-126 | a goroutine is done after its four turns, whatever happened before and whether or not the file could be read |
| UpdateProtocol.UnreadableChangesNothing | pkg/config/config.go:108-112 | an unreadable file leaves the configuration as it is and sends nothing |
| UpdateProtocol.ConcurrentReloadExact | pkg/config/config.go:100-126 | for any interleaving, stale reads included, batches in lock order lead the router through exactly the committed configurations, and the last is prevEntries |
| UpdateProtocol.ConcurrentReloadCovers | pkg/config/config.go:100-126 | with arbitrary contents no servable entry of the committed configuration lacks a handler |
| LastContent.LastContentIff | pkg/config/config.go:108-121 | in every run the content configured is the file's if it was read after the last change, and only then if the file never had that content before |
| LastContent.OrderedCommitsIff | pkg/config/config.go:108-121 | with commits in the order of reads, once all goroutines are done the file's content is configured if somebody read it after the last change, and for new content only then |
| LastContent.LastUpdateWins | pkg/config/config.go:100-121 | if nobody passes the check while another reads or commits, an event follows the last change of a readable file and all goroutines are done, then its content is configured |
| Delivery.SwapExactIff | pkg/config/config.go:123-125 | two batches that swap places are harmless iff no servable entry came with the first and went with the second |
| Delivery.CopiesBalance | pkg/server/server.go:91-115 | handlers of a servable pair are those before, plus ups, less downs, plus the downs that found nothing to remove |
| Delivery.AnyOrderCopies | pkg/config/config.go:123-125 | for duplicate-free contents and any order of all batches, a servable pair has the handlers of the last configuration plus one for each down that came too early; other pairs have none |
| Delivery.AnyOrderCovers | pkg/config/config.go:123-125 | for duplicate-free contents and any order no servable entry of the last configuration lacks a handler |
| Delivery.AnyOrderExactIff | pkg/config/config.go:123-125 | for duplicate-free contents and any order the outcome is exact iff for no servable entry removals ran ahead of the start and the additions |
| Delivery.SomeCopyIff | pkg/server/server.go:91-115 | after any events a servable pair has a handler iff ups outnumber downs, with those there at the start or from some point on |
| Delivery.AnyOrderBalance | pkg/config/config.go:123-125 | for arbitrary contents and any order: the balance of handlers, and the last configuration is covered iff each servable entry of it is ahead in that sense |
| Delivery.DuplicateLostOutOfOrder | pkg/config/config.go:123-125 | after [], [A], [A, A], [] and [A] with the last two batches swapped A has no handler; in order it has one |
| Delivery.FileIsServed | pkg/config/config.go:100-126 | from the file to the router: with duplicate-free contents, prompt reads and an event after the last change, every servable line of the file is served, and nothing else iff no removal overtook its addition |
| ReferenceTable.StoreKeepsInv | assets/go-wasm.js:181-229 | storing any value keeps the table invariant: inverse id map, exact counts, exact free pool, exact length |
| ReferenceTable.FinalizeKeepsInv | assets/go-wasm.js:330-339 | finalizing an outstanding reference keeps it; pins are never freed |
| ReferenceTable.BoxedIsNaN | assets/go-wasm.js:182-228 | every boxed word is a NaN pattern with the id in its low half, so loading takes the table branch |
| ReferenceTable.WordLoadsItsValue | assets/go-wasm.js:168-229 | a stored word loads its value in every later state in which the reference is outstanding; -0 becomes +0 |
| ReferenceTable.OutstandingLoads | assets/go-wasm.js:177-178 | an outstanding reference names an allocated slot that holds its value |
| ReferenceTable.WordsByKind | assets/go-wasm.js:181-229 | the word for every kind of value: 0 for undefined, numbers as they are, and else a NaN that ends in 1 for objects, 2 for strings, 3 for symbols, 4 for functions and 0 for the rest, with the id |
| ReferenceTable.WordsLoadByKind | assets/go-wasm.js:168-179 | zero of either sign loads undefined, another number itself, and a NaN what the table has under its low half |
| ReferenceTable.NaNAboveInfinity | assets/go-wasm.js:173 | a word is a NaN iff its magnitude is above that of infinity |
| ReferenceTable.KeyIsValue | assets/go-wasm.js:199 | map keys are the values, with minus zero as zero |
| ReferenceTable.PinsKeepTheirIds | assets/go-wasm.js:480-497 | in every reachable state ids 0 to 6 are NaN, 0, null, true, false, global and the Go object, both ways |
| ReferenceTable.LastFinalizeFrees | assets/go-wasm.js:333-338 | with its last reference a slot is cleared, its value forgotten, and the slot is the next one used |
| ReferenceTable.EveryRunIsSafeAndTight | assets/go-wasm.js:199-209 | over every run: no dangling reference, counts equal outstanding references, and the table length is seven plus the peak of distinct unpinned values, all held, pooled or pinned |
| GoBridge.Go.constructor | assets/go-wasm.js:477-498 | the initial table is valid and holds the seven pins |
| GoBridge.Go.LoadValue | assets/go-wasm.js:168-179 | reads the value a word stands for, inline or through the table |
| GoBridge.Go.StoreValue | assets/go-wasm.js:181-229 | writes one word, updates the table by one reference, the word then loads the value, and its last bits tell the kind |
| GoBridge.Go.FinalizeRef | assets/go-wasm.js:330-339 | drops one reference and, with the last one, frees the slot |
| LinearMemory.U32RoundTrip | assets/go-wasm.js:162-166 | four little-endian bytes read back as the number written |
| LinearMemory.LittleEndian | assets/go-wasm.js:162-166 | the byte at the address has the lowest eight bits, and so on |
| ArgumentLayout.Int64Halves | assets/go-wasm.js:162-166 | the low half comes first and the number is signed |
| ArgumentLayout.StartsPacked | assets/go-wasm.js:502-513 | the first string is at 4096, every next thing at the first multiple of eight behind it |
| ArgumentLayout.AssignmentText | assets/go-wasm.js:525 | an assignment is key, equals sign, value |
| ArgumentLayout.BeforeIff | assets/go-wasm.js:523 | the order of the keys: a proper prefix first, else by the first code unit that differs |
| ArgumentLayout.StartsApart | assets/go-wasm.js:504-513 | strings and the pointer table do not overlap |
| ArgumentLayout.StartsAligned | assets/go-wasm.js:509-511 | every pointer is a multiple of eight and not null |
| ArgumentLayout.CStringReads | assets/go-wasm.js:506-507 | a NUL-free string with its terminator is read back whole |
| ArgumentLayout.LayoutReadsBack | assets/go-wasm.js:515-534 | following the pointers yields exactly the arguments, a null, exactly the assignments, a null |
| GoBridge.Go.PutStrings | assets/go-wasm.js:517-526 | each string is written at its place and its pointer collected; failure means memory is too small |
| GoBridge.Go.PutPointers | assets/go-wasm.js:529-534 | the pointer table is written as 64-bit words without touching the strings |
| GoBridge.Go.PassArguments | assets/go-wasm.js:501-536 | succeeds iff everything fits, hands over an aligned address, leaves the first page alone, and what is read from there is the command line and the sorted environment |
| HtmlTokens.TagString | pkg/stream/htmlstreamer.go:59-72 | the buffer loop yields the name and all attributes in order, values escaped |
| HtmlTokens.TokenToString | pkg/stream/htmlstreamer.go:58-90 | the printed form of each kind of token; that it reads back is HtmlReading.StreamReadsBackIff |
| HtmlTokens.EscapedHasNoMarkup | pkg/stream/htmlstreamer.go:43-45 | escaped text contains no angle bracket, quote or carriage return |
| HtmlTokens.ValueReadsBack | pkg/stream/htmlstreamer.go:67-69 | an escaped attribute value is read back up to its closing quote, unescaped |
| HtmlTokens.TagReadsBack | pkg/stream/htmlstreamer.go:58-84 | a printed tag reads back as its kind, name, and attribute keys and values in order, by the states of section 13.2.5 of the HTML Living Standard |
| HtmlTokens.DistinctAttrsKept | pkg/stream/htmlstreamer.go:64-70 | with distinct keys and no NUL the reader drops and replaces nothing |
| HtmlStreamer.HTMLStreamer.Read | pkg/stream/htmlstreamer.go:21-51 | a read fills the front of the caller's buffer with the next bytes and leaves the rest alone; the error appears iff nothing is left |
| HtmlStreamer.ChunkIndependent | pkg/stream/htmlstreamer.go:21-51 | bytes delivered plus bytes buffered are the one-shot rendering of the tokens taken, for any read sizes |
| HtmlStreamer.ReadsConsistent | pkg/stream/htmlstreamer.go:34-46 | whatever the read sizes, the streamer's running counter is the depth of the tokens taken, so each text is printed as in the one-shot rendering |
| HtmlStreamer.EndMeansComplete | pkg/stream/htmlstreamer.go:26-29 | the end is reported only when the whole rendering is out |
| HtmlStreamer.ReadIsGreedy | pkg/stream/htmlstreamer.go:48-50 | a read fills the buffer or empties the token, and takes a new token only when nothing of the last is left |
| HtmlStreamer.ReadsAreBounded | pkg/stream/htmlstreamer.go:48-50 | with non-empty reads and tokens, as many reads as there are bytes reach the end |
| HtmlReading.StreamReadsBackIff | pkg/stream/htmlstreamer.go:33-46 | the rendering of any shaped stream reads back as the same texts, tags, comments and doctypes iff every comment, every doctype and every text of a raw element survives its printing |
| HtmlReading.CommentStep | pkg/stream/htmlstreamer.go:85-86 | a printed comment is read as that comment, with the rest untouched, iff its data does not end it early and holds no NUL or carriage return |
| HtmlReading.DoctypeStep | pkg/stream/htmlstreamer.go:87-88 | a printed doctype is read as that doctype, with the rest untouched, iff its data has no ">", NUL or carriage return and does not start with white space |
| HtmlReading.ElementReadsBackIff | pkg/stream/htmlstreamer.go:33-46 | one raw element, at the start or after a stray end tag, reads back iff its text survives at the depth the counter has there |
| PathRewriting.ModifyToken | pkg/stream/pathprefixstreamer.go:12-22 | exactly the link attributes of start and self-closing tags are rewritten in place |
| PathRewriting.OnlyLinkAttrsChange | pkg/stream/pathprefixstreamer.go:17-20 | exactly the values of href, src, action and formaction are rewritten |
| PathRewriting.RequestUrl.Strip | pkg/handler/util.go:12-17 | path and raw path lose the host path and get a leading slash together |
| PathRewriting.StripInStepIff | pkg/handler/util.go:12-17 | raw and decoded path stay in step iff, without a raw path, what is left is empty or starts with a slash, and with one, both spell the host path literally or neither does, or the raw path is used up |
| PathRewriting.StripAddsRawSlash | pkg/handler/util.go:14-17 | a request without raw path under the host path "/app/" gets the raw path "/" and falls out of step |
| PathRewriting.RewrittenNamesHostIff | pkg/stream/pathprefixstreamer.go:29-55 | exactly when a rewritten location starts with two slashes and so names another host |
| PathRewriting.OnlyLocalLinksChange | pkg/stream/pathprefixstreamer.go:29-55 | locations that do not parse or are on another host stay; a relative one or one on the proxied host becomes a path under the host path, which names another host under the exact condition given, or, without a path, its request URI |
| LinkFollowing.UnderHostPathIff | pkg/mux/mux.go:116-122 | a request for a text under the host path is under it as the server decodes it iff the host path has no percent sign, question mark or hash |
| LinkFollowing.RewriteStripIff | pkg/handler/util.go:12-17 | a rewritten link, requested, decoded, routed and stripped, shows the upstream path, encoding and query of p itself iff p is well formed, the host path is plain and names no host, an empty host path meets no double slash, and no slash that counts is lost at a seam |
| LinkFollowing.RewrittenReachesEntryIff | pkg/server/server.go:125-131 | the decoded request for a rewritten location matches the literal mux entry it came from iff p is well formed, the host path is plain, and the location does not name another host |
| LinkFollowing.EscapedSlashIsLost | pkg/handler/util.go:12-17 | with a host path like "/app/" the upstream path "/%2Fx" arrives as "/x" with raw path "%2Fx" |
| LinkFollowing.EscapedHostPathIsMissed | pkg/handler/util.go:12-17 | with a host path like "/a%20b" the request for a rewritten link is not under it |
| LinkFollowing.DoubleSlashLeaves | pkg/stream/pathprefixstreamer.go:29-55 | without a host path the upstream path "//x" is rewritten to a location on the host x |
| LinkFollowing.EscapedTargetStays | pkg/stream/pathprefixstreamer.go:52-54 | a target path that a link has to escape is not taken off |
| LinkFollowing.DebugRoundTripIff | pkg/server/server.go:157-168 | a location rewritten for the debug listener stays there, and comes back to the same host with its own path, raw path and query iff the host is plain and the location well formed |
| LinkFollowing.LinkFollowedThroughDebugIff | pkg/server/server.go:157-168 | both layers compose: a followed link reaches its own entry and shows the upstream what p itself would iff p is well formed, hostname and host path are plain and the seams are kept |
| UrlPaths.EscapedPathInStep | pkg/handler/redirect.go:30-31 | whatever the raw path, the escaped path is an encoding of the path |
| LinkFollowing.DebugLeavesHosts | pkg/server/server.go:168 | the debug listener leaves locations with a host alone |
| LinkFollowing.EscapedParsesBack | pkg/handler/redirect.go:30-31 | a path written out in its default encoding parses back to itself without a raw path |
| UrlPaths.DecodeConcat | pkg/handler/redirect.go:30-31 | percent-decoding distributes over well-formed pieces |
| UrlPaths.JoinedInStep | pkg/handler/redirect.go:25-43 | a non-empty raw result decodes to the returned path, whatever is escaped at the seam |
| UrlPaths.JoinSeam | pkg/handler/redirect.go:25-55 | exactly one slash at the seam: of the paths, or with a raw path of the escaped paths, and then the path loses or gains the slash that the raw path does |
| UrlPaths.JoinKeepsPaths | pkg/handler/redirect.go:25-43 | the result has a raw path iff one of the inputs has, and its path is the first then the second, give or take one slash |
| UrlPaths.JoinLeavesSecond | pkg/handler/redirect.go:45-55 | the joined path starts with the first, and what follows is the second path, with a slash put in front or, after a trailing slash, one taken off |
| ResponseWriter.StreamingNext | pkg/stream/pathprefixwriter.go:15-23 | every step of handler, pipe and copier keeps what is out plus what is buffered equal to the rendering of the tokens taken |
| ResponseWriter.OneSinkNext | pkg/stream/pathprefixwriter.go:57-80 | every step keeps the body in one sink, in order |
| ResponseWriter.CloseDrains | pkg/stream/pathprefixwriter.go:57-93 | when Close has returned the underlying writer holds the whole body, or the complete rendering of it if the header said HTML |
| ResponseWriter.CloseDrainsByType | pkg/stream/pathprefixwriter.go:57-80 | the body is re-printed iff the content type of the first WriteHeader, or the one detected from a first Write, starts with "text/html", and goes out as it is otherwise |
| ResponseWriter.BodyOfWrites | pkg/stream/pathprefixwriter.go:57-66 | the body is what the writes add up to |
| ResponseWriter.SomeStepEnabled | pkg/stream/pathprefixwriter.go:18-23 | until Close has returned some step is possible: no deadlock |
| ResponseWriter.EveryRunStops | pkg/stream/pathprefixwriter.go:15-23 | no run is infinite, whoever is scheduled |
| ResponseWriter.CloseCanBeReached | pkg/stream/pathprefixwriter.go:88-93 | from every state on the way some steps lead to one in which Close has returned |
| ResponseWriter.StuckMeansDelivered | pkg/stream/pathprefixwriter.go:57-93 | a run that cannot go on has returned from Close with everything delivered |
| DirectoryListing.SliceStable | pkg/fileserver/fileserver.go:135-140 | sorting in place is a stable sort for every strict weak order |
| DirectoryListing.TwoStableSortsAreOne | pkg/fileserver/fileserver.go:135-140 | the two sorts together are one stable sort: directories first, names ascending, ties as listed |
| DirectoryListing.ListedInOrder | pkg/fileserver/fileserver.go:135-140 | the same files, directories first, names ascending within a kind, and files of one name and kind as they were |
| DirectoryListing.StringLessIff | pkg/fileserver/fileserver.go:136 | the order of names: a proper prefix first, else by the first byte that differs |
| DirectoryListing.HandleDir | pkg/fileserver/fileserver.go:129-152 | the files in that order, one line each, after a link to the parent unless the directory is "." or "/" |

## Left out

- UpdateProtocol.ConcurrentReloadExact: covers batches received in lock order; Delivery.AnyOrderExactIff covers the other orders.
- UpdateProtocol.LastNumberPasses: is about the debounce check only; which content ends up configured is the matter of LastContent.LastContentIff.
- LastContent.LastUpdateWins: has no clocks; that reads and commits take less than the second of sleep is its assumption that nobody passes the check meanwhile.
- Delivery.AnyOrderExactIff: is about duplicate-free contents and the state after all batches; in lock order Reload.LiveReloadExactIff covers duplicates too, and Delivery.AnyOrderBalance covers them in any order.
- ArgumentLayout.Int64Halves: is about exact integers; JavaScript rounds beyond 2^53, which no address reaches.
- GoBridge.Go.StoreValue: asks for a slot number below 2^32, since the id is stored in 32 bits.
- HtmlTokens.TagReadsBack: the reader covers the states a printed tag goes through; unquoted and single-quoted values, and character references other than those the printer writes, are not read.
- ResponseWriter.CloseDrains: assumes one WriteHeader per response, as net/http asks of handlers, and an underlying writer that does not fail.
- LinkFollowing.RewriteStripIff: is about locations made by joining the target path as it is configured; one that has to be escaped stays in (LinkFollowing.EscapedTargetStays), and as it is cut off as a string prefix, "/application" under "/app" is cut in the middle of a segment. The client is taken to ask for the location as written, without resolving dot segments or escaping anything.
- LinkFollowing.LinkFollowedThroughDebugIff: asks that the URL parser finds no host in the location the inner layer passes on, which the outer layer would otherwise leave alone.
- HtmlReading.StreamReadsBackIff: a doctype is kept as the text of its name and identifiers; a script is read like a style sheet, without its escaped states, noscript as ordinary markup, and of character references those the printer writes.
- PathRewriting.StripInStepIff: takes a host path that is empty or starts with a slash, as the configuration format has it.
- Mux.Contains and Mux.ContainsHost: they return false on every branch of the code, so there is nothing to prove about them.
- Response headers other than the content type, and the host and query of a redirect: easy members.
- Config.Close racing with senders, and the copier after a write error: no useful guarantee holds.
- The effect of a factory whose success changes over time: the factory is a fixed function.
- File watching, timers, config line parsing and templates, Docker events, TLS, logging, and the S3, SFTP, PHP, tail and WebAssembly file handlers: input, output and foreign calls.
- The glob matcher, URL parsing, the HTML tokenizer, content sniffing and UTF-8 encoding: library code, taken as parameters.
- The JavaScript side of `syscall/js` beyond storing, loading and finalizing, and the polyfills of `go-wasm.js`.
- UTF-16 and byte-length details of strings beyond what the layout needs.
