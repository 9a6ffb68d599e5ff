# A Dafny model of the zshrs daemon's stores and text codecs

The zshrs daemon keeps state for many shells (a catalog of recorded definitions,
artifacts, locks, file watches, a cache, the command history) and turns that state
into text: exports a shell reads back, regular expressions, base64, framed JSON. This
project models those stores and codecs and proves what they promise over all inputs
and all runs. Code that changes state step by step is a class or a method with loops,
proved against a specification function; the promises are lemmas about that function.

| file | what it models |
|---|---|
| `Text.dfy` | Rust string order, ordered-map iteration, decimal numerals, `i64` wrap-around |
| `KeyOrder.dfy` | the comparator that lists a catalog subsystem |
| `Catalog.dfy`, `CatalogRefinement.dfy`, `CatalogReads.dfy` | the catalog over packed storage keys, the plain map over (subsystem, shell, key) it stands for, and what its readers see of each write |
| `JsonText.dfy`, `CatalogShard.dfy`, `CatalogPersist.dfy`, `CatalogReload.dfy` | string values as JSON literals; flattening the catalog to a typed shard and reading it back |
| `Diff.dfy` | the diff between two shells' definitions |
| `Marks.dfy` | what a run of operations did to one entry of a store |
| `Artifacts.dfy`, `ArtifactRuns.dfy`, `ArtifactTimes.dfy` | the content-addressed artifact store, its collection, and what a row says about the run behind it |
| `Locks.dfy`, `LockSafety.dfy` | named locks: the table and the poll loop; runs with dying processes and reused process ids |
| `Watch.dfy`, `WatchRuns.dfy` | the refcounted file watches |
| `Glob.dfy` | glob to regex, with a parser and matcher for the regex text |
| `ShellQuote.dfy` | quoting for shell exports, with a reader for what they print |
| `Base64.dfy` | base64, with a strict reader |
| `Frames.dfy`, `FrameStream.dfy` | the untagged JSON envelope; length-prefixed frames on a byte stream |
| `BraceScan.dfy`, `BraceIndependence.dfy`, `BraceReference.dfy`, `FreeFns.dfy` | the build gate's line scanner, what its depths do not depend on, when it counts a line's code as Rust lexes it, and which functions it collects |
| `LogFollow.dfy` | `zlog tail -f` across rotations |
| `Cache.dfy`, `CacheRuns.dfy` | the key-value cache with lazy expiry, and its runs told by their calls |
| `History.dfy` | history queries and their windowed form |

The world outside enters as parameters: the clock, the process table, the operating
system's answer to a watch call, directory listings in whatever order, SHA-256 as a
function from bytes to digests, JSON text as a printer and a parser, SQL's `LIKE` and
full-text `MATCH` as predicates. Each operation is one atomic step.

## Where a promise or an expectation fails

Some of these are promises of the documentation, some are consequences of the code that
a user may not expect. Each is stated with the exact condition under which it happens.

- `docs/SHELL_IDS.md` promises that rows of different shells never overwrite each
  other. They do when a key holds the separator byte, whichever the shells are
  (`OverwrittenExactlyWhenKeyHoldsSeparator`).
- Replacing one shell's rows also clears those of a shell whose id ends in the
  separator and the replaced id, with no separator in any key (`ScopeIsTheShell`,
  `ReplaceRefinesExactlyWhen`).
- The listing order is not a total order once a key's leading digit run exceeds a
  `u64` (`TotalExactlyWhenFits`).
- A reload does not return every catalog as it was, only normal ones
  (`ReloadKeepsExactlyNormalCatalogs`).
- An artifact's age counts from its last read, so contents put a moment ago are
  collected as old when the contents they replaced were last read long ago
  (`PutRefreshesAgeExactlyWhenUnread`).
- A blob whose last name is put again with other contents stays on disk, whatever is
  collected later, until its contents are put again (`OrphanedExactlyWhenLeftBehind`,
  `OverwrittenBlobIsNeverFreed`).
- A dead holder's lock stays taken while its process id is in use again
  (`RefusedExactlyWhen`); a caller that does not give its id is never protected
  (`ProtectedExactlyWhenAlive`).
- A path whose first watch call failed is never watched again
  (`FailedWatchIsForever`). A path subscribed to before the watcher is started, or
  started again, is not watched until its last subscription is gone and a new one comes
  (`WatchedExactlyWhenRegisteredSinceTheStart`).
- A glob's wildcards do not match a newline
  (`PreservedForAllNamesExactlyWithoutWildcards`).
- A frame whose payload repeats the envelope's names, or looks like an earlier
  variant, is read as something else (`RecoveredExactlyWhenDistinguishable`).
- `build.rs` says that braces in comments, strings and character literals are ignored.
  They are counted when a lifetime stands at most eleven bytes before: its look-ahead for
  a closing apostrophe reaches into a comment, string or block comment
  (`CommentTextIsIgnoredExactly`, `LiteralContentsAreIgnoredExactly`), and closes at a
  character literal's opening apostrophe, so that what the literal holds is scanned as
  code (`CharContentsAreIgnoredExactly`; `'a>('{')` counts a brace,
  `BraceInLiteralCounted`).
- The same look-ahead closes at the next lifetime's apostrophe and swallows the code
  between, braces included (`GapIsCountedExactlyWhenLong`,
  `BraceBetweenLifetimesMissed`). Lines where no look-ahead misleads are exactly those
  scanned token by token (`TakesTokensExactlyWhenTame`).
- Keeping track of test modules changes nothing in what the scanner collects: their
  lines are deeper than depth zero anyway (`CollectedExactly`).
- The later lines of a string that spans lines are counted as code
  (`ContinuationLineIsCountedExactly`).
- An empty frame or one that is no frame does not take a reader out of step; one that is
  too large does (`HeaderDecides`).
- Log following misses nothing and repeats nothing unless a file is truncated and
  rewritten unnoticed or rotated between `stat` and `open`
  (`TruncationIsNoticedExactlyWhileShorter`, `RotationUnderALook`).
- Lazy expiry in the cache shows exactly when the clock runs backwards
  (`InvisibleExactlyWhenTheClockRunsForward`), and an entry with a huge time-to-live can
  expire at once, because the sum wraps around (`PutIsReadableExactly`).

## Model

| member | source | states |
|---|---|---|
| KeyOrder.CompareFlips | daemon/canonical.rs:57-66 | the comparator is antisymmetric, and equal only on equal keys |
| KeyOrder.NumbersFirstThenText | daemon/canonical.rs:57-66 | keys that both start with a number sort by it, then by text; any other two sort by their text |
| KeyOrder.CompareTransitive | daemon/canonical.rs:57-66 | it is transitive on keys whose leading number fits in a `u64` |
| KeyOrder.TotalExactlyWhenFits | daemon/canonical.rs:57-66 | it is a total order with a key among fitting keys exactly when that key fits: an over-long digit run always closes a circle |
| KeyOrder.PositionalRowsComeBackInOrder | daemon/canonical.rs:544-571 | rows keyed 0..n-1 sorted by it are in numeric order, for every n |
| Catalog.CanonicalEngine.UpsertTaggedWithAttrs | daemon/canonical.rs:407-434 | one row is stored under its packed key, everything else stays |
| Catalog.CanonicalEngine.SetHistory | daemon/canonical.rs:476-488 | an existing row gets the history, a missing one nothing |
| Catalog.CanonicalEngine.ReplaceSubsystemWithAttrs | daemon/canonical.rs:494-536 | the shell's scope is cleared, then the entries are inserted in order, later ones winning |
| CatalogRefinement.PackUnpack | daemon/canonical.rs:68-73 | a packed key unpacks to its (subsystem, shell, key), with untagged and "zshrs" the same shell |
| CatalogRefinement.ScopeIsTheShell | daemon/canonical.rs:507-518 | for a separator-free key and any shells the scope-clear drops a row exactly when it is the shell's own, unless the row's shell id ends in the separator and the cleared id |
| CatalogRefinement.ScopeClearIsRightExactlyForSepFreeKeys | daemon/canonical.rs:507-518 | between separator-free shell ids it is always right exactly when the key has no separator |
| CatalogRefinement.OverwrittenExactlyWhenKeyHoldsSeparator | docs/SHELL_IDS.md:21-27 | a row of any shell can share its slot with another shell's row, of a separator-free key, exactly when its own key holds the separator |
| CatalogRefinement.OwnRowOverwrittenExactlyWhen | docs/SHELL_IDS.md:21-27 | for a zshrs row against any key: exactly when its key holds the separator followed by something other than the default shell's name |
| CatalogRefinement.UpsertRefines | daemon/canonical.rs:407-434 | an upsert acts as on the map over (subsystem, shell, key) |
| CatalogRefinement.SetHistoryRefines | daemon/canonical.rs:476-488 | so does setting a history |
| CatalogRefinement.ReplaceRefines | daemon/canonical.rs:494-536 | so does replacing a shell's scope: other shells and subsystems are untouched |
| CatalogRefinement.ReplaceRefinesExactlyWhen | daemon/canonical.rs:494-536 | it does so exactly when no row of the subsystem belongs to a shell the replaced one shadows |
| CatalogReads.UpsertIsReadBack | daemon/canonical.rs:407-434 | after an upsert the subsystem lists a row with every field as it was handed in, in place of the one of that key and shell, and else what it listed before; a zshrs key reads as that row |
| CatalogReads.ReplacementIsReadBack | daemon/canonical.rs:494-536 | after a replacement it lists the last entry of each key, every field as it was handed in, and the other shells' rows, nothing else |
| CatalogRefinement.RowReadsDefaultShell | daemon/canonical.rs:574-577 | a direct read finds exactly zshrs's own row |
| CatalogRefinement.ListsEachRowOnce | daemon/canonical.rs:544-571 | a listing holds each due row once and nothing else |
| CatalogRefinement.SortedWhenKeysFit | daemon/canonical.rs:544-571 | a listing of fitting keys is in the comparator's order |
| CatalogRefinement.PositionalListing | daemon/canonical.rs:544-558 | a subsystem of n rows keyed 0..n-1 is listed 0, 1, …, n-1 |
| JsonText.UnicodeEscapesRead | daemon/canonical.rs:752-761 | the decoder reads the Unicode escapes of RFC 8259, section 7, one or two of them |
| JsonText.RawTextStays | daemon/canonical.rs:752-761 | what is no JSON string is read as it stands |
| JsonText.StringRoundTrip | daemon/canonical.rs:748-761 | decoding an encoded string gives it back, for every string and both decoders |
| CatalogPersist.PushIndexedInto | daemon/canonical.rs:737-746 | a numeric key is a position, gaps filled with empty strings; other keys are appended |
| CatalogPersist.SnapshotShard | daemon/canonical.rs:588-687 | the nested loops fill the shard that holds, field by field, what each subsystem's rows say, whatever order subsystems come in |
| CatalogPersist.IngestShardInto | daemon/canonical.rs:264-357 | the loops fill a catalog holding in every subsystem the shard's contents, catch-all entries last even under a name that has a field, whatever order the maps are visited in |
| CatalogPersist.PersistAndReload | daemon/canonical.rs:588-687 | the two together compute one reload cycle |
| CatalogShard.SubsystemOfInjective | daemon/canonical.rs:608-679 | sorting subsystem names into the shard's fields loses no name |
| CatalogReload.ListRoundTrip | daemon/canonical.rs:737-746 | a directory list survives being listed in text order ("10" before "2") |
| CatalogReload.EachPlaceIsTheLastWritten | daemon/canonical.rs:737-746 | whatever its keys are, a list holds at each position what the last row that goes there says, empty strings where none goes, and ends behind the furthest |
| CatalogReload.SwitchesComeBack | daemon/canonical.rs:644-653 | an option comes back on exactly if it was stored as "on", "true" or "1" |
| CatalogReload.ReloadIsIdempotent | daemon/canonical.rs:264-357 | a second persist-and-reload cycle changes nothing |
| CatalogReload.ReloadKeepsExactlyNormalCatalogs | daemon/canonical.rs:264-357 | a catalog comes back identical exactly when it is already normal |
| CatalogReload.JsonReload | daemon/canonical.rs:748-761 | both hold with the JSON encoding the engine uses |
| Diff.OpDefinitionsDiff | daemon/definitions.rs:246-315 | the argument errors, and a report that lists exactly the places where the two views differ, each once |
| Diff.DiffIsAPatch | daemon/definitions.rs:272-301 | applying the report to the first shell's view gives the second's |
| Diff.SwappingShellsInverts | daemon/definitions.rs:272-301 | the inverse report is the diff the other way round, and undoes it |
| Diff.EmptyExactlyWhenEqual | daemon/definitions.rs:272-301 | the diff is empty exactly when the views are equal |
| Diff.ViewIsTheShellsPart | daemon/definitions.rs:275-284 | a shell's view is exactly its part of the catalog: one row for each kind, shell and key |
| Artifacts.ArtifactStore.OpPut | daemon/artifact.rs:121-161 | what a put stores and answers |
| Artifacts.ArtifactStore.OpGet | daemon/artifact.rs:163-181 | a get answers with the named contents or not found, and records the time of the read |
| Artifacts.ArtifactStore.OpGetByDigest | daemon/artifact.rs:183-186 | a malformed digest is refused before the blob is looked for |
| Artifacts.ArtifactStore.FetchBlob | daemon/artifact.rs:188-205 | the blob under a digest, or the error |
| Artifacts.ArtifactStore.OpGc | daemon/artifact.rs:207-299 | exactly the rows the two passes select go, blobs go with their last row, and the freed bytes are those blobs' sizes |
| Artifacts.ArtifactStore.AgePass | daemon/artifact.rs:222-242 | the age pass selects the rows last touched before the cutoff |
| Artifacts.ArtifactStore.CapPass | daemon/artifact.rs:243-273 | the cap pass adds the oldest rows that were not yet selected until the rest fits |
| Artifacts.ArtifactStore.DeleteAll | daemon/artifact.rs:275-295 | a blob is deleted only with its last row, in whatever order the rows come |
| ArtifactRuns.CollectsOldestFirst | daemon/artifact.rs:207-299 | no survivor is older than a removed row, even when both passes take rows |
| ArtifactRuns.CollectsToTheCap | daemon/artifact.rs:243-273 | the rows left weigh no more than a cap that is not negative |
| ArtifactRuns.CapTakesNoMoreThanNeeded | daemon/artifact.rs:243-273 | without the newest row the cap took, it would not have been met |
| ArtifactRuns.DropRefines | daemon/artifact.rs:275-295 | a collection keeps every surviving row's blob and only restricts the map |
| ArtifactRuns.RunRefinesPlainMap | daemon/artifact.rs:121-299 | over every run the reads answer as a plain map from names to bytes would |
| ArtifactRuns.PutThenGet | daemon/artifact.rs:121-181 | what was put is read back unless other stored contents collide with it |
| ArtifactRuns.PutThenGetAfterAnyRun | daemon/artifact.rs:121-181 | after any run from an empty store it is so, as blobs stay filed under their own hash |
| ArtifactRuns.FetchByDigest | daemon/artifact.rs:183-205 | what is found under a digest hashes to it, and everything a name reaches is found |
| ArtifactRuns.DropKeepsOrphans | daemon/artifact.rs:275-295 | a collection neither frees nor makes a blob that no row names |
| ArtifactRuns.PutLeavesOrphanExactlyWhen | daemon/artifact.rs:121-161 | a put leaves such a blob exactly when it overwrites the last row naming it with other contents |
| ArtifactRuns.OrphanedExactlyWhenLeftBehind | daemon/artifact.rs:121-299 | over every run a blob ends up unnamed exactly when a put abandoned it, or it was unnamed before, and its contents were not put again |
| ArtifactRuns.RunLeavesOrphansExactlyWhen | daemon/artifact.rs:121-299 | a run from a store without unnamed blobs ends without them exactly when it left none behind |
| ArtifactRuns.OverwrittenBlobIsNeverFreed | daemon/artifact.rs:275-295 | an unnamed blob survives every later run that does not put its contents again |
| ArtifactRuns.TwoPutsLeaveAnOrphan | daemon/artifact.rs:121-161 | two puts under one name leave one |
| ArtifactRuns.PutRefreshesAgeExactlyWhenUnread | daemon/artifact.rs:142-156 | a collection by age right after a put takes the new contents exactly when the name was last read before the cutoff |
| ArtifactRuns.FreshContentsCanAgeOut | daemon/artifact.rs:207-242 | a concrete store whose new contents are collected for age |
| ArtifactTimes.RowTellsItsRun | daemon/artifact.rs:121-299 | after every run a name has a row exactly when it was put and not collected since; it holds the last put, is as old as the first since, and was last read when the name last was |
| ArtifactTimes.AgeLimitMeansAge | daemon/artifact.rs:207-217 | an age limit takes exactly what was touched longer ago than that |
| ArtifactTimes.DigestsAreHexadecimal | daemon/artifact.rs:88-97 | a digest argument is sixty-four hexadecimal digits |
| Locks.CallerPid | daemon/lock.rs:69-77 | the process id is the argument cast to 32 bits, zero when absent |
| Locks.LockTable.TryAcquireInner | daemon/lock.rs:104-130 | a dead holder's entry is dropped, a live one refuses, otherwise the caller gets the lock |
| Locks.LockTable.Acquire | daemon/lock.rs:145-185 | the poll loop over the rounds it meets |
| Locks.LockTable.ReleaseLock | daemon/lock.rs:187-212 | only the entry's own token releases it |
| Locks.PollStopsAtTheFirstFreeRound | daemon/lock.rs:145-185 | the loop grants at the first round that finds the lock free, and times out only after its deadline with the lock held at every attempt |
| Locks.WithoutTimeoutOneAttempt | daemon/lock.rs:164-185 | without a timeout the answer after one attempt is busy, with nothing changed, exactly when a live process holds the lock, and else a grant |
| Locks.GrantedMeansItWasFree | daemon/lock.rs:145-185 | whatever the timeout, a grant is made at the first attempt that does not find the lock held, and writes the caller's entry over the table it found |
| Locks.ReleaseFreesExactlyItsOwn | daemon/lock.rs:187-212 | a release frees the lock for the next attempt exactly when it names its token, and else changes nothing |
| LockSafety.MutualExclusion | daemon/lock.rs:104-130 | over every run with deaths and reused process ids no name is held twice |
| LockSafety.HolderKeepsItsLock | daemon/lock.rs:187-212 | only its own release or its death ends a hold; a stale token frees nothing |
| LockSafety.RefusedExactlyWhen | daemon/lock.rs:81-116 | an attempt is refused exactly when the lock is held or the grantee's process id is in use again |
| LockSafety.WithoutReuseRefusedMeansHeld | daemon/lock.rs:81-116 | without reuse, refused means held |
| LockSafety.ReusedPidKeepsADeadLock | daemon/lock.rs:81-116 | a concrete run where a lock nobody holds is refused |
| LockSafety.ProtectedExactlyWhenAlive | daemon/lock.rs:69-98 | a grant keeps others out exactly when its process id names a live process |
| Watch.FsWatcher.StartWatching | daemon/fsnotify.rs:128-152 | a start, if a new watcher can be made, replaces the old one and drops all it watched; the tables stay |
| Watch.FsWatcher.SubscribePath | daemon/fsnotify.rs:224-252 | the four tables after a subscription, failed watch call included |
| Watch.FsWatcher.UnsubscribeId | daemon/fsnotify.rs:258-279 | the four tables after dropping one |
| WatchRuns.CountsAgreeExactlyUnlessWatchFailed | daemon/fsnotify.rs:85-104 | after every run, starts anywhere, a path's refcount is its number of live subscriptions exactly when its watch call never failed, and then it is registered exactly when that is positive |
| WatchRuns.WatchedExactlyWhenRegisteredSinceTheStart | daemon/fsnotify.rs:128-142 | since the last start a path is watched exactly when it is registered and was once not: what was registered at a start and never dropped since goes unwatched |
| WatchRuns.SecondStartLosesWatches | daemon/fsnotify.rs:138-141 | a concrete run where a second start leaves a registered path unwatched |
| WatchRuns.FailedWatchIsForever | daemon/fsnotify.rs:229-245 | after a failed watch call the path stays unwatched and its count one too high in every later run |
| WatchRuns.IdsAreNeverReused | daemon/fsnotify.rs:247-249 | an id handed out is not handed out again |
| WatchRuns.IdStandsForItsSubscription | daemon/fsnotify.rs:247-279 | the id answered is new and stands for that path in every later run until it is given up, which takes back exactly that subscription and its count |
| WatchRuns.RegisteredAsAskedFor | daemon/fsnotify.rs:232-245 | what is registered for a path is what its first subscriber asked for |
| WatchRuns.ListingCountsItself | daemon/fsnotify.rs:284-293 | the count listed beside a subscription is the number of subscriptions listed for its path, exactly unless that path's watch failed |
| Glob.GlobToRegex | daemon/export.rs:452-480 | the regex text emitted for a glob, brackets copied |
| Glob.TranslationMeans | daemon/export.rs:452-480 | for every glob whose brackets are plain characters and ranges the text is a regex and matches exactly the names the glob accepts with wildcards kept to one line |
| Glob.TranslationPreservesMeaning | daemon/export.rs:452-480 | on newline-free names the regex accepts what the glob accepts |
| Glob.PreservedForAllNamesExactlyWithoutWildcards | daemon/export.rs:452-480 | on all names it does so exactly when the glob has no wildcard |
| ShellQuote.PushZshAssocHash | daemon/export.rs:647-671 | the export text for an associative array |
| ShellQuote.QuotedReadsBack | daemon/export.rs:673-677 | a single-quoted value reads back as itself within whatever word it stands |
| ShellQuote.ShellQuoteIsOneWord | daemon/export.rs:735-746 | a quoted value is read as the single word it was |
| ShellQuote.JoinedListSplitsBack | daemon/export.rs:766-773 | a space-joined list of quoted values splits back into the list |
| ShellQuote.AssocHashReadsBack | daemon/export.rs:647-671 | the export reads back as exactly the rows' key and value words, in order |
| ShellQuote.PathExportReadsBack | daemon/export.rs:756-776 | a search-path export reads back as the directories, one word each, and their colon-joined list |
| Base64.Base64Encode | daemon/export.rs:1597-1619 | the loop emits the encoding of the bytes |
| Base64.EncodeChunk | daemon/export.rs:1600-1617 | shifting the packed number gives the four digits of section 4 of RFC 4648 |
| Base64.AlphabetIsInOrder | daemon/export.rs:1597-1599 | the alphabet of table 1 of RFC 4648 |
| Base64.EncodeDecodes | daemon/export.rs:1597-1619 | a strict decoder gives the bytes back; the length is four for every three bytes or part of three |
| Base64.Padding | daemon/export.rs:1607-1616 | the pads stand where they must and nowhere else, in all three residue cases |
| Base64.DecodeEncodes | daemon/export.rs:1597-1619 | any text the strict decoder accepts is what the encoder writes |
| Frames.RecoveredExactlyWhenDistinguishable | daemon/ipc.rs:116-148 | first-match dispatch recovers variant and fields exactly when no earlier variant fits and a flattened payload is an object free of the envelope's own names |
| Frames.AvoidedNamesAreEnough | daemon/ipc.rs:116-148 | avoiding six names is enough |
| Frames.ErrorRepliesComeBack | daemon/ipc.rs:176-183 | every error reply is recovered |
| Frames.EnvelopeFieldsAre | daemon/ipc.rs:116-148 | the envelope's fields under their names |
| Frames.RequestReads | daemon/ipc.rs:127-134 | a request may leave its arguments out, giving them twice is refused, other fields do not matter |
| Frames.NullPayloadBecomesEmpty | daemon/ipc.rs:135-148 | a null payload is written as no fields and read as an empty object; only objects and null can be written |
| Frames.RepeatedFieldIsRefused | daemon/ipc.rs:34-76 | a structure with a repeated field is refused |
| Frames.HelloReads | daemon/ipc.rs:34-57 | the handshake's fields survive, skipped and null ones included |
| Frames.WelcomeReads | daemon/ipc.rs:60-76 | so do the welcome's |
| Frames.WelcomeFieldsAre | daemon/ipc.rs:60-76 | and are written under their names |
| FrameStream.LengthReadsBack | daemon/ipc.rs:299-301 | the big-endian length is read as it was written |
| FrameStream.Pipe.WriteFrameSync | daemon/ipc.rs:291-305 | a frame is appended whole or refused with nothing written |
| FrameStream.Pipe.ReadFrameSync | daemon/ipc.rs:269-288 | what is read, which error is reported, and what is left |
| FrameStream.CutStreamReadsWholeFrames | daemon/ipc.rs:269-305 | a stream cut anywhere is read as exactly the frames written whole, then end of stream |
| FrameStream.StreamReadsBack | daemon/ipc.rs:269-305 | frames written back to back are read as the same frames |
| FrameStream.LimitsAgree | daemon/ipc.rs:275-297 | reader and writer refuse the same sizes |
| FrameStream.HeaderDecides | daemon/ipc.rs:269-288 | for every length and whatever follows it: the answer, and where the next read begins |
| FrameStream.BadFrameIsSkipped | daemon/ipc.rs:269-288 | behind a frame that is no frame the rest of the stream is read as it was written |
| BraceScan.ScanLine | build.rs:478-582 | the byte loop computes the line's brace count and comment depth, within bounds |
| BraceScan.CollectFreeFns | build.rs:462-617 | the names and lines collected, test modules and nested lines left out |
| FreeFns.FnNameExactly | build.rs:596-614 | a line is taken to declare a function exactly when it is spelled as blanks, an optional visibility, three optional qualifiers in order, `fn`, a name, and what ends it |
| FreeFns.CollectedExactly | build.rs:462-617 | a name is collected with a line's number exactly when the line declares it and is entered at depth zero |
| FreeFns.CollectedInOrder | build.rs:462-617 | names come in the order of their lines, at most one for each |
| FreeFns.InTestModExactly | build.rs:473-594 | the scanner is inside a test module exactly when one was opened at depth zero and the depth has stayed above zero since |
| FreeFns.NothingInATestModule | build.rs:473-594 | nothing from the line that opens a test module to the one that closes it is collected |
| BraceScan.AfterAppend | build.rs:469-594 | scanning lines A and then B is scanning B from A's final state |
| BraceIndependence.CommentTextIsIgnoredExactly | build.rs:498-571 | a line's result does not depend on a comment's text exactly when no apostrophe before it looked past the slashes |
| BraceIndependence.LiteralContentsAreIgnoredExactly | build.rs:499-571 | nor on what a string, a raw string or a block comment holds, exactly when none looked past its opening |
| BraceIndependence.InsideExactlyWhenTheSkipEndsThere | build.rs:503-548 | the contents meant are all those behind which a string's or raw string's own skip ends at its closer |
| BraceIndependence.CharContentsAreIgnoredExactly | build.rs:457-571 | nor on what a character literal holds, escapes included, exactly when no lifetime stands within eleven bytes before it |
| BraceIndependence.CommentEditKeepsLaterDepths | build.rs:583-594 | such an edit leaves the state every later line is entered in as it was |
| BraceIndependence.LiteralEditKeepsLaterDepths | build.rs:583-594 | so does editing such a literal |
| BraceIndependence.CharEditKeepsLaterDepths | build.rs:583-594 | so does editing a character literal |
| BraceIndependence.OpenLiteralAtLineEnd | build.rs:482-548 | a string left open is forgotten at the end of its line, a block comment is carried on |
| BraceIndependence.ContinuationLineIsCountedExactly | build.rs:482-594 | the next line of a block comment changes nothing, the next line of a string changes the depth exactly when its own braces do not balance |
| BraceIndependence.CommentBraceCounted | build.rs:549-571 | a concrete line whose comment brace is counted |
| BraceReference.TakesTokensExactlyWhenTame | build.rs:478-582 | the scan takes a line's tokens one by one, as Rust lexes them, exactly when every character literal closes within the look-ahead and every lifetime's look-ahead meets no apostrophe |
| BraceReference.TameLinesAreCountedExactly | build.rs:457-582 | on such a line it counts exactly the braces of the code, and carries the right comment depth |
| BraceReference.DepthIsTheBracesOfCode | build.rs:469-594 | on a file of such lines the depth is what the braces of the code sum up to |
| BraceReference.GapIsCountedExactlyWhenLong | build.rs:549-571 | whatever stands between a lifetime and the next apostrophe is counted for what it is exactly when the lifetime's name and the gap together are at least eleven bytes long |
| BraceReference.BraceBetweenLifetimesMissed | build.rs:549-571 | lines of code such as `'a>{x:&'a u8}`, all of it code, count one brace too few |
| BraceReference.BraceInLiteralCounted | build.rs:549-571 | in `'a>('{'` and whatever follows, the character literal's brace is counted |
| LogFollow.Follower.Poll | daemon/builtins.rs:1386-1424 | what one polling round shows and records |
| LogFollow.ShownExactlyOnce | daemon/builtins.rs:1366-1426 | over every run of appends, rotations, creations, removals and looks, each file's bytes are shown once, in order, from where following started to the recorded offset |
| LogFollow.StartsAtTheEnds | daemon/builtins.rs:1377-1383 | following starts at the length of each file listed and with no other file, and so with all shown that should be: nothing |
| LogFollow.FirstRoundShowsTheGrowth | daemon/builtins.rs:1377-1426 | the first round shows of each file it looks at exactly what it has grown by |
| LogFollow.NothingNewNothingWritten | daemon/builtins.rs:1377-1426 | where nothing has grown it writes nothing |
| LogFollow.LookCatchesUp | daemon/builtins.rs:1388-1410 | a successful look leaves nothing behind that was there when it began |
| LogFollow.TruncationIsNoticedExactlyWhileShorter | daemon/builtins.rs:1393-1398 | a rewritten file is shown from its start exactly when it is looked at while shorter than before |
| LogFollow.RotationUnderALook | daemon/builtins.rs:1389-1410 | if another file is opened than was measured, both stay exact exactly when nothing was read |
| LogFollow.EveryPieceIsLabelled | daemon/builtins.rs:1411-1420 | with several logs each piece stands under its own log's header |
| LogFollow.HeadersExactlyAtChanges | daemon/builtins.rs:1411-1420 | with several logs a header is written exactly where the log changes, with one log none is |
| Cache.CacheDb.OpPut | daemon/cache.rs:95-130 | the stored row and the reply |
| Cache.CacheDb.OpGet | daemon/cache.rs:132-179 | a live row is found; an expired one is deleted and not found |
| Cache.CacheDb.OpDel | daemon/cache.rs:181-189 | the row is gone, and whether there was one |
| Cache.LazyExpiryIsInvisible | daemon/cache.rs:132-265 | while the clock does not run backwards every run answers as a store that never deletes expired rows, but for `created_at` and the `deleted` flag |
| Cache.InvisibleExactlyWhenTheClockRunsForward | daemon/cache.rs:132-265 | over every store and every run at given times it does so exactly when the times never go back |
| Cache.FoundExactlyWhenListed | daemon/cache.rs:191-216 | a key is found exactly when the listing shows it |
| Cache.FoundExactlyWhenCounted | daemon/cache.rs:218-236 | and exactly when the statistics count it, bytes included |
| Cache.PutIsReadableExactly | daemon/cache.rs:105-107 | what was put is found at once exactly when its expiry is neither past nor wrapped around |
| CacheRuns.ReadFindsTheLastWrite | daemon/cache.rs:95-189 | over every run whose clock does not run back, a read finds its slot exactly when the last put or delete of that slot was a put that has not expired, and answers with what it put |
| CacheRuns.RowsAreAsOldAsTheirFirstPut | daemon/cache.rs:108-189 | whatever the clock does, a delete says whether the slot was put and not removed since, and a found row is as old as the first put since |
| CacheRuns.PutSaysWhatIsStored | daemon/cache.rs:95-130 | a put is answered with the size and expiry a read finds |
| CacheRuns.ListingIsExact | daemon/cache.rs:191-216 | a listing holds the matching keys that have not expired, once each and in order, and their number |
| CacheRuns.FoundExactlyWhenCountedInAll | daemon/cache.rs:237-265 | the totals over all namespaces count a row exactly while it can be found |
| CacheRuns.RefusedExactlyWhenArgumentsAreMissing | daemon/cache.rs:79-112 | only missing arguments are refused, and then nothing changes |
| History.Assemble | daemon/history.rs:162-224 | the conditions and the parameters, in the order they are pushed |
| History.ConditionsSayWhatIsWanted | daemon/history.rs:176-216 | each condition with the parameter that fills its place says what the query asks |
| History.RunQuery | daemon/history.rs:152-246 | the assembled statement selects what the query asks for, on every table |
| History.RecentPrefixIsAnInitialSegment | daemon/history.rs:143-171 | newest first, the windowed result is an initial segment of the full one, and equal exactly when the limit is reached inside the window or nothing beyond it matches |
| History.WindowHoldsTheNewest | daemon/history.rs:163-171 | no row beyond the window is newer than one in it |
| History.ResultsAreWantedAndInOrder | daemon/history.rs:213-224 | in every mode the result holds rows of the table that the query wants, in order of time |
| History.LeftOutOnlyBeyondTheLimit | daemon/history.rs:143-246 | a wanted row is left out only by a full result, all of which comes before it |
| History.ResultsAreDistinct | daemon/history.rs:213-246 | no row is returned twice, and never more than the limit |
| History.HistoryDb.Append | daemon/history.rs:114-131 | a row is added under a fresh, larger id |

## Left out

- The shard's values only: file, line, shell and time of a row are not carried by the shard, so the reload results are about storage keys and values.
- CatalogReload.ReloadIsIdempotent: assumes directory lists no longer than an address space can index, which a `Vec` needs anyway.
- CatalogRefinement.UpsertRefines: for separator-free keys; what happens otherwise is OverwrittenExactlyWhenKeyHoldsSeparator.
- CatalogRefinement.SortedWhenKeysFit: `sort_by` with an inconsistent comparator may do anything; the model sorts by stable insertion.
- ArtifactRuns.RunRefinesPlainMap: assumes that SHA-256 does not collide on the contents in play.
- Artifacts.ArtifactStore.OpGc: sums of row sizes are taken to stay below 2^63; a blob write and its row insert are one step, as is the whole collection.
- Decoding an artifact's value from base64 or text, and the shape of the JSON replies.
- Locks.LockTable.Acquire: sleeping is a round of the environment; the token's text form is not parsed.
- LockSafety.MutualExclusion: fresh tokens and live positive caller ids, as the operations intend.
- Watch.FsWatcher.SubscribePath: paths are already canonical; `watch_path` and `unwatch_path` on subscribed paths and event routing are not modelled.
- Glob.TranslationMeans: brackets holding `!`, `^`, `-`, `&`, `~`, a backslash or a bracket other than in a range; their text is copied into regex syntax and means what the regex engine makes of it. The engine's size limit is not modelled either.
- ShellQuote.AssocHashReadsBack: the reader refuses unquoted characters that shells treat specially, and the array name is one of the plain names the export uses; aliases and other targets print their keys unquoted and are not modelled.
- Frames.RecoveredExactlyWhenDistinguishable: JSON text is a printer and a parser that undo each other on what is sent (FrameStream.Sendable); numbers are integers or opaque text.
- BraceScan.CollectFreeFns: the text comes split into lines, and counters do not overflow.
- BraceReference.DepthIsTheBracesOfCode: the code is read line by line, as the scanner does; a string that spans lines is what BraceIndependence.ContinuationLineIsCountedExactly is about.
- LogFollow.Follower.Poll: errors writing to standard output, and the text of a header.
- Cache.FoundExactlyWhenListed: SQL `LIKE` on keys is a predicate of prefix and key.
- History.RunQuery: the columns that no query looks at, and the full-text index, are not modelled.
- History.HistoryDb.Append: no row is deleted, as in the daemon.
- Recorder shards merged on a read, SQLite mirrors, migrations, HTTP, logging and metrics: input and output around the modelled state.
