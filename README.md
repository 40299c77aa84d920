# docmenta-core: a verified model of the store engine and the XML/CSS utilities

This project models, in Dafny, the core of docmenta-core, the back end of the
Docmenta documentation system. Documents live in *document stores*. A store
holds a tree of *versions* (each version may be derived from a base version),
and each version holds a tree of *nodes* (groups, XML content, files, images,
references) with language-dependent attributes and translations.

The model covers:

- **The copy and synchronisation engine** (`DocStoreUtilities`): copying whole
  version trees between stores (`CopyWalk`, `VersionCopy`), copying node trees
  with alias renaming (`NodeCopy`, `AliasRename`), synchronising a target node
  tree with a source tree (`NodeSync`, `TreeSync`, `SyncRecursive`), and
  verifying a copy against its source (`VersionVerify`, `ByteStreams`).
- **Sessions, stores and managers** (`AbstractDocStoreSession`,
  `AbstractDocStore`, `AbstractDocStoreManager`, `AbstractLockManager`):
  local transactions, translation mode, version state and release dates,
  image renditions, the event queue and its compression (`DocEvents`),
  listener lists and locks.
- **Helpers**: the default progress callback and log, document attributes,
  image renditions.
- **XML and CSS utilities**: the tokenising `XMLParser`, the element context
  and the simple XML processor that applies handlers to elements, `XMLUtil`,
  the CSS declaration parser and `CSSUtil`, and the string helpers of
  `DocmaUtil`.

Java `int` and `long` arithmetic is modelled exactly where it matters (the
alias suffix counter wraps at 2^31, `Integer.parseInt` has its 32-bit range).
Java strings are `seq<char>`. The clock, UUID generation, the failure of a
storage call and a user's cancel request are parameters of the operations
that use them (`now`, a name hash, `fails`, `canceled`).

Objects whose fields the source updates in place (sessions, stores, the lock
manager, the progress callback, the log, the XML parser and element context,
the node arena of a store) are classes with `modifies` frames. The pure
helpers are functions, and their properties are lemmas.

## Model

| member | source | states |
|---|---|---|
| `AliasRename.RenameAlias` | src/org/docma/coreapi/DefaultAliasRenameStrategy.java:25-40 | the proposed alias never equals the alias it replaces, including when the numeric suffix wraps at the 32-bit limit |
| `AliasRename.NumberChanges` | src/org/docma/coreapi/DefaultAliasRenameStrategy.java:34-35 | the decimal text of n+1 (32-bit) always differs from the suffix that parsed as n |
| `AliasRename.NoSeparatorAppendsTwo` | src/org/docma/coreapi/DefaultAliasRenameStrategy.java:27-29 | an alias without '_' becomes alias + "_2" |
| `AliasRename.NumberedAliasIncrements` | src/org/docma/coreapi/DefaultAliasRenameStrategy.java:31-35 | prefix + "_" + n becomes prefix + "_" + (n+1), with Java int wrap-around |
| `AliasRename.NonNumericSuffixAppendsTwo` | src/org/docma/coreapi/DefaultAliasRenameStrategy.java:36-38 | a suffix after the last '_' that is not a Java int makes the result alias + "_2" |
| `DocAttributes.InternalNames` | src/org/docma/coreapi/implementation/DocAttributes.java:32-38 | a name is internal iff it is "title", "contenttype", "fileext" or starts with "system."; the test is case-sensitive |
| `ImageRendition.NewRendition` | src/org/docma/coreapi/DocImageRendition.java:35-65 | succeeds iff the name matches `[A-Za-z][0-9A-Za-z_-]+`, and then the getters return the constructor's arguments; otherwise "Invalid image rendition name." |
| `ImageRendition.RenditionNameShape` | src/org/docma/coreapi/DocImageRendition.java:39-41 | a valid name has at least two characters and starts with a letter |
| `ImageRendition.MimeTypeFromFormat` | src/org/docma/coreapi/DocImageRendition.java:67-70 | the MIME type is "image/" followed by the format |
| `ImageRendition.FormatFromMimeType` | src/org/docma/coreapi/DocImageRendition.java:72-78 | fails unless the type starts with "image/"; otherwise the type is "image/" + the returned format |
| `ImageRendition.FormatMimeRoundTrip` | src/org/docma/coreapi/DocImageRendition.java:67-78 | format → MIME type → format gives the format back |
| `LockManagers.CheckLockTimeout` | src/org/docma/coreapi/implementation/AbstractLockManager.java:32-40 | a lock with timeout ≤ 0 never times out (deadline summed in 64-bit arithmetic) |
| `LockManagers.TimeoutWithoutOverflow` | src/org/docma/coreapi/implementation/AbstractLockManager.java:34-35 | without overflow, timed out iff timeout > 0 and now > creation time + timeout |
| `LockManagers.TimeoutIsMonotone` | src/org/docma/coreapi/implementation/AbstractLockManager.java:34-35 | a lock that has timed out stays timed out at every later time |
| `LockManagers.OverflowingDeadlineHasPassed` | src/org/docma/coreapi/implementation/AbstractLockManager.java:35 | a deadline beyond the long range wraps negative, so the lock is timed out at every non-negative time |
| `LockManagers.WarningsMatchFailures` | src/org/docma/coreapi/implementation/AbstractLockManager.java:42-76 | one warning per throwing listener, naming the event's listener method; none when no listener throws |
| `LockManagers.LockManager.AddListener` | src/org/docma/coreapi/implementation/AbstractLockManager.java:81-85 | the listener is removed, then appended: it occurs exactly once, last |
| `LockManagers.LockManager.RemoveListener` | src/org/docma/coreapi/implementation/AbstractLockManager.java:87-96 | removes the first identical entry and no other; true iff one was present |
| `LockManagers.LockManager.FireLockEvent` | src/org/docma/coreapi/implementation/AbstractLockManager.java:42-76 | every listener is called, in list order, whether or not an earlier one threw; each exception becomes one warning |
| `ListenerLists.RemoveFirstCounts` | src/org/docma/coreapi/implementation/AbstractLockManager.java:87-96 | removing drops exactly one occurrence when there is one and changes nothing otherwise |
| `ListenerLists.RemoveFirstOfUnique` | src/org/docma/coreapi/implementation/AbstractDocStore.java:107-116 | on a duplicate-free list, removal takes the listener out completely and keeps every other entry |
| `ListenerLists.AddLastOnce` | src/org/docma/coreapi/implementation/AbstractDocStore.java:101-105 | after adding, the listener occurs exactly once, as the last entry, and the other entries are unchanged |
| `DocEvents.DocEvent.constructor` | src/org/docma/coreapi/implementation/DocEventImpl.java:33-42 | the node-id set is {nodeId}, or empty for a null id; name, parent and language are the arguments |
| `DocEvents.DocEvent.AddNodeIds` | src/org/docma/coreapi/implementation/DocEventImpl.java:46-48 | the node-id set becomes the old set union the argument (duplicates collapse); nothing else changes |
| `DocEvents.DocEvent.Value` | src/org/docma/coreapi/implementation/DocEventImpl.java:52-66 | the getters return the fields fixed at construction and the current node-id set |
| `DocEvents.Merge` | src/org/docma/coreapi/implementation/EventQueueUtil.java:35-43 | the later event survives with the union of both node-id sets and its own name, parent and language |
| `DocEvents.Compress` | src/org/docma/coreapi/implementation/EventQueueUtil.java:30-45 | the merging pass never lengthens the queue and leaves a non-empty queue non-empty |
| `DocEvents.CompressHeadKey` | src/org/docma/coreapi/implementation/EventQueueUtil.java:35-43 | the first surviving event has the name, parent and language of the first queued event |
| `DocEvents.CompressLeavesNoMergeable` | src/org/docma/coreapi/implementation/EventQueueUtil.java:30-95 | no two adjacent events of the result are mergeable |
| `DocEvents.CompressOfUnmergeable` | src/org/docma/coreapi/implementation/EventQueueUtil.java:30-46 | a queue with no mergeable neighbours is left unchanged (so compression is idempotent) |
| `DocEvents.CompressKeepsNodeIds` | src/org/docma/coreapi/implementation/EventQueueUtil.java:35-43 | compression loses no node id and invents none |
| `DocEvents.CompressSplits` | src/org/docma/coreapi/implementation/EventQueueUtil.java:30-46 | where neighbours cannot merge the queue compresses part by part, so surviving events keep their relative order |
| `DocEvents.MergeInto` | src/org/docma/coreapi/implementation/EventQueueUtil.java:32-43 | a mergeable event's ids go into the next event, which takes its slot; otherwise the event stays in front |
| `DocEvents.MergePass` | src/org/docma/coreapi/implementation/EventQueueUtil.java:30-45 | the backward in-place pass over the event objects yields exactly `Compress` of the queue's values |
| `DocEvents.PassStep` | src/org/docma/coreapi/implementation/EventQueueUtil.java:31-44 | one iteration keeps: the visited suffix is compressed and the unvisited prefix is untouched |
| `DocEvents.NeedsRestructure` | src/org/docma/coreapi/implementation/EventQueueUtil.java:49-62 | true iff more than one NODES_CHANGED event remains |
| `DocEvents.CompressEvents` | src/org/docma/coreapi/implementation/EventQueueUtil.java:27-72 | the merged queue, or, when more than one NODES_CHANGED event remains, a single new NODES_STRUCTURE_CHANGED event with null parent and language |
| `DocStores.DocStore.constructor` | src/org/docma/coreapi/implementation/AbstractDocStore.java:31-41 | a new store has no listeners, an empty queue and no dispatch running |
| `DocStores.DocStore.QueueEvent` | src/org/docma/coreapi/implementation/AbstractDocStore.java:53-81 | appends one fresh event only when a listener is registered; otherwise the queue is unchanged |
| `DocStores.DocStore.NodeAddedEvent` | src/org/docma/coreapi/implementation/AbstractDocStore.java:53-61 | queues a NODES_ADDED event without language, only when someone listens |
| `DocStores.DocStore.NodeRemovedEvent` | src/org/docma/coreapi/implementation/AbstractDocStore.java:63-71 | queues a NODES_REMOVED event without language, only when someone listens |
| `DocStores.DocStore.NodeChangedEvent` | src/org/docma/coreapi/implementation/AbstractDocStore.java:73-81 | queues a NODES_CHANGED event carrying the language, only when someone listens |
| `DocStores.DocStore.AddDocListener` | src/org/docma/coreapi/implementation/AbstractDocStore.java:101-105 | the listener ends up exactly once, last; the queue is untouched |
| `DocStores.DocStore.RemoveDocListener` | src/org/docma/coreapi/implementation/AbstractDocStore.java:107-116 | removes the first identical entry; true iff one was found |
| `DocStores.DocStore.DispatchEventQueue` | src/org/docma/coreapi/implementation/AbstractDocStore.java:124-145 | a nested call changes nothing; otherwise listeners receive the compressed copy of the queue, the queue is emptied and the running flag reset |
| `DocStores.DocStore.DiscardEventQueue` | src/org/docma/coreapi/implementation/AbstractDocStore.java:147-150 | empties the queue and leaves listeners and flag untouched |
| `ProgressCallbacks.Clamp` | src/org/docma/coreapi/implementation/DefaultProgressCallback.java:166-176 | the clamped count lies in [lo, hi], equals n inside the range, and a count below 0 wins over one above the total |
| `ProgressCallbacks.ClampIdempotent` | src/org/docma/coreapi/implementation/DefaultProgressCallback.java:166-176 | clamping an already clamped count changes nothing |
| `ProgressCallbacks.TotalOf` | src/org/docma/coreapi/implementation/DefaultProgressCallback.java:88-90 | a step total is at least one, and a positive request is kept |
| `ProgressCallbacks.CopyOf` | src/org/docma/coreapi/implementation/DefaultProgressCallback.java:274-275 | the longer copy holds the old entries followed by zeros |
| `ProgressCallbacks.ClearFrom` | src/org/docma/coreapi/implementation/DefaultProgressCallback.java:99-102 | every level from `from` on is zero in both arrays; the levels below are unchanged |
| `ProgressCallbacks.FitArraySize` | src/org/docma/coreapi/implementation/DefaultProgressCallback.java:270-277 | both arrays grow to workLevel + 1 entries when too short, keeping their entries, and stay as they are otherwise |
| `ProgressCallbacks.OpenLevel` | src/org/docma/coreapi/implementation/DefaultProgressCallback.java:97-102 | the opened level holds (total, 0), the lower levels are kept and every deeper level is zero |
| `ProgressCallbacks.StartLevel` | src/org/docma/coreapi/implementation/DefaultProgressCallback.java:92-102 | the arrays are fitted and the level opened, and every open level stays within its bounds |
| `ProgressCallbacks.OpenedFromPrefix` | src/org/docma/coreapi/implementation/DefaultProgressCallback.java:97-102 | the writes of `startWork` produce the lower levels, the new value, then zeros |
| `ProgressCallbacks.OpenedIsValid` | src/org/docma/coreapi/implementation/DefaultProgressCallback.java:86-107 | opening a level with a total of at least one keeps every open level's finished count within its total |
| `ProgressCallbacks.ProgressCallback.constructor` | src/org/docma/coreapi/implementation/DefaultProgressCallback.java:27-34 | no level open, percent 0, both arrays five zeros, flags cleared |
| `ProgressCallbacks.ProgressCallback.StartWork` | src/org/docma/coreapi/implementation/DefaultProgressCallback.java:86-107 | n ≤ 0 counts as 1; one level is pushed with (n, 0); deeper levels are zeroed; opening level 0 resets the percent |
| `ProgressCallbacks.ProgressCallback.FinishWork` | src/org/docma/coreapi/implementation/DefaultProgressCallback.java:109-116 | the current level's finished count becomes its total, the percent is recomputed from the steps of every level open before the pop, and one level is popped; nothing when no level is open |
| `ProgressCallbacks.ProgressCallback.GetStepsTotal` | src/org/docma/coreapi/implementation/DefaultProgressCallback.java:118-125 | 0 exactly when no level is open, otherwise the current level's total |
| `ProgressCallbacks.ProgressCallback.GetStepsFinished` | src/org/docma/coreapi/implementation/DefaultProgressCallback.java:141-148 | never above the total, and 0 when no level is open |
| `ProgressCallbacks.ProgressCallback.SetStepsTotal` | src/org/docma/coreapi/implementation/DefaultProgressCallback.java:127-139 | the total is clamped to at least 1, the finished count lowered to it if larger, and the percent recomputed from the steps; ignored with no open level; no other state changes |
| `ProgressCallbacks.ProgressCallback.SetStepsFinishedClamped` | src/org/docma/coreapi/implementation/DefaultProgressCallback.java:166-176 | the current level's finished count is the argument clamped to [0, total] and the percent is recomputed from the steps |
| `ProgressCallbacks.ProgressCallback.SetStepsFinished` | src/org/docma/coreapi/implementation/DefaultProgressCallback.java:150-156 | the clamped count and the recomputed percent, or nothing when no level is open |
| `ProgressCallbacks.ProgressCallback.StepFinished` | src/org/docma/coreapi/implementation/DefaultProgressCallback.java:158-164 | one more step, never beyond the total, and the percent recomputed from the steps; ignored with no open level; the 32-bit increment is explicit |
| `ProgressCallbacks.ProgressCallback.CalcPercentFromSteps` | src/org/docma/coreapi/implementation/DefaultProgressCallback.java:241-268 | the percent becomes the rounded weighted sum of the finished steps of the open levels (at most four), each level weighted by 100 divided by its total and the weights of the levels above; only the percent changes |
| `ProgressCallbacks.ProgressCallback.SetFinished` | src/org/docma/coreapi/implementation/DefaultProgressCallback.java:178-185 | percent 100, level 0 complete, every level closed (workLevel -1) and the finished flag set |
| `DefaultLogs.CountOfPositive` | src/org/docma/coreapi/implementation/DefaultLog.java:140-156 | a severity's count is positive iff some entry has that severity |
| `DefaultLogs.AppendCounts` | src/org/docma/coreapi/implementation/DefaultLog.java:499-505 | appending an entry adds one to the count of its own severity only |
| `DefaultLogs.FilterKeepsSelected` | src/org/docma/coreapi/implementation/DefaultLog.java:207-216 | the filtered log holds exactly the selected entries, is no longer than the log, and is the whole log when every entry is selected |
| `DefaultLogs.FilterAppend` | src/org/docma/coreapi/implementation/DefaultLog.java:209-216 | filtering distributes over concatenation, so entries keep their log order |
| `DefaultLogs.FormatMsg` | src/org/docma/coreapi/implementation/DefaultLog.java:523-537 | without a location the message is the resource text, or the key itself when the lookup gives null or "" |
| `DefaultLogs.FormatMsgWithLocation` | src/org/docma/coreapi/implementation/DefaultLog.java:529-533 | with a non-empty location one trailing '.' is dropped and ": \n" + location appended |
| `DefaultLogs.ToXmlAttribute` | src/org/docma/coreapi/implementation/DefaultLog.java:509-512 | same length; no '"', '\n', '\r' or '\f' remains; every other character is kept |
| `DefaultLogs.DefaultLog.constructor` | src/org/docma/coreapi/implementation/DefaultLog.java:32-46 | an empty log with all counters zero |
| `DefaultLogs.DefaultLog.InfoMsg` | src/org/docma/coreapi/implementation/DefaultLog.java:56-63 | appends exactly one info entry and increments only the info counter |
| `DefaultLogs.DefaultLog.WarningMsg` | src/org/docma/coreapi/implementation/DefaultLog.java:84-91 | appends exactly one warning entry and increments only the warning counter |
| `DefaultLogs.DefaultLog.ErrorMsg` | src/org/docma/coreapi/implementation/DefaultLog.java:112-119 | appends exactly one error entry and increments only the error counter |
| `DefaultLogs.DefaultLog.AddLogMsg` | src/org/docma/coreapi/implementation/DefaultLog.java:499-505 | appends the entry and counts it under its severity, if it has one of the three |
| `DefaultLogs.DefaultLog.HasError` | src/org/docma/coreapi/implementation/DefaultLog.java:140-144 | true iff some entry is an error (the counter is positive) |
| `DefaultLogs.DefaultLog.HasInfo` | src/org/docma/coreapi/implementation/DefaultLog.java:146-150 | true iff some entry is an info |
| `DefaultLogs.DefaultLog.HasWarning` | src/org/docma/coreapi/implementation/DefaultLog.java:152-156 | true iff some entry is a warning |
| `DefaultLogs.DefaultLog.GetLogRange` | src/org/docma/coreapi/implementation/DefaultLog.java:186-199 | entries from..min(to, size)-1 in order; empty when the clipped end is ≤ from; an error for a negative start |
| `DefaultLogs.DefaultLog.GetLogFiltered` | src/org/docma/coreapi/implementation/DefaultLog.java:202-220 | exactly the entries of the selected severities, in log order; the whole log when all three are selected |
| `DefaultLogs.DefaultLog.Clear` | src/org/docma/coreapi/implementation/DefaultLog.java:258-264 | empties the list and zeroes all three counters |
| `DefaultLogs.AllSelectedIsWholeLog` | src/org/docma/coreapi/implementation/DefaultLog.java:205-206 | the all-severities shortcut agrees with filtering when every entry has one of the three severities |
| `DocmaUtil.JoinSnoc` | src/org/docma/util/DocmaUtil.java:105-107 | appending one element to a joined non-empty list appends the separator and the element |
| `DocmaUtil.JoinEnds` | src/org/docma/util/DocmaUtil.java:100-110 | a joined list starts with its first element and ends with its last: no leading or trailing separator |
| `DocmaUtil.JoinLength` | src/org/docma/util/DocmaUtil.java:100-110 | the joined length is the elements' lengths plus one separator between each two neighbours |
| `DocmaUtil.PiecesOfJoin` | src/org/docma/util/DocmaUtil.java:100-110 | cutting a joined list at the separator character gives the elements back when none holds it |
| `DocmaUtil.JoinOfPieces` | src/org/docma/util/DocmaUtil.java:100-110 | joining the pieces of a string cut at a character rebuilds the string |
| `DocmaUtil.SplitOfJoin` | src/org/docma/util/DocmaUtil.java:100-110 | Java's `split` undoes `concatStrings` when no element holds the separator and the last is non-empty |
| `DocmaUtil.ConcatStrings` | src/org/docma/util/DocmaUtil.java:100-110 | "" for an empty list, otherwise the elements joined by the separator |
| `DocmaUtil.ConcatStringArray` | src/org/docma/util/DocmaUtil.java:112-122 | the same for an array |
| `DocmaUtil.ByteSizeReadsBack` | src/org/docma/util/DocmaUtil.java:124-129 | below 100000 "n Bytes"; below 100000000 the whole kilobytes with "KB"; otherwise the whole megabytes with "MB" |
| `DocmaUtil.ExtractStringStart` | src/org/docma/util/DocmaUtil.java:243-250 | the string itself when its length is ≤ maxlen; otherwise its first maxlen characters followed by "..."; a negative maxlen fails |
| `DocmaUtil.BlankTrimsToNothing` | src/org/docma/util/DocmaUtil.java:217-218 | a text of characters ≤ ' ' trims to "" |
| `DocmaUtil.CheckWellFormedXml` | src/org/docma/util/DocmaUtil.java:213-241 | passes exactly when the text before the first '<' and after the last token is blank and the tokenizer reads to the end without error (blank input passes, non-blank input without '<' fails); a tokenizer error is reported as is |
| `DocmaUtil.LastTokenEnd` | src/org/docma/util/DocmaUtil.java:229-240 | where the last token the parser loop reads ends, inside the text, or the first tokenizer error |
| `DocmaUtil.AcceptedSimpleElement` | src/org/docma/util/DocmaUtil.java:213-241 | `<a></a>` is well-formed: its last token ends at 7 |
| `DocmaUtil.RejectedTextAfterElement` | src/org/docma/util/DocmaUtil.java:213-241 | `<a></a>x` is not: text follows the last token |
| `XmlParser.SkipWhitespace` | src/org/docma/util/XMLParser.java:304-311 | the first non-whitespace position at or after i; everything skipped is whitespace |
| `XmlParser.NameStartShaped` | src/org/docma/util/XMLParser.java:284-300 | from SEARCH_NAME_START the scan ends at a '>' with paired name/value lists, or fails at or after the start |
| `XmlParser.EqualsShaped` | src/org/docma/util/XMLParser.java:302-322 | the same from SEARCH_EQUALS |
| `XmlParser.AfterNameRunShaped` | src/org/docma/util/XMLParser.java:312-322 | the same once the whitespace after a name is skipped: only '=' may follow whitespace |
| `XmlParser.ValueStartShaped` | src/org/docma/util/XMLParser.java:324-330 | the same from SEARCH_VALUE_START: a single or double quote opens the value, anything else but whitespace fails |
| `XmlParser.ValueEndShaped` | src/org/docma/util/XMLParser.java:332-343 | the same from SEARCH_VALUE_END: the opening quote character closes the value and a '<' inside it fails |
| `XmlParser.TagAttributesShaped` | src/org/docma/util/XMLParser.java:264-349 | a scan either returns the index of a '>' with equally long name and value lists, or a syntax error at or after the offset |
| `XmlParser.JavaTagEndDecidesForPositiveOffset` | src/org/docma/util/XMLParser.java:293-348 | for the positive offsets `next` passes, the returned int is non-negative iff the scan succeeded, and then indexes a '>' |
| `XmlParser.JavaTagEndAmbiguousAtZero` | src/org/docma/util/XMLParser.java:300 | at offset 0 a syntax error is returned as -0 = 0, indistinguishable from a '>' at index 0 |
| `XmlParser.TagEndIndex` | src/org/docma/util/XMLParser.java:264-349 | the corrected encoding: the '>' index on success, a negative value for every syntax error |
| `XmlParser.TagEndIndexDecides` | src/org/docma/util/XMLParser.java:264-349 | with the corrected encoding the result is non-negative exactly on success, at every offset |
| `XmlParser.SkipWhitespaceRun` | src/org/docma/util/XMLParser.java:303-311 | the whitespace loop stops at the first non-whitespace and reports whether it skipped any |
| `XmlParser.NameStartStep` | src/org/docma/util/XMLParser.java:284-300 | one SEARCH_NAME_START step: '>' and "/>" end the tag, '/' not followed by '>' is an error, an identifier start opens a name |
| `XmlParser.EqualsStep` | src/org/docma/util/XMLParser.java:302-322 | one SEARCH_EQUALS step: '=' takes the trimmed name, whitespace not followed by '=' and a non-name character are errors |
| `XmlParser.ValueStartStep` | src/org/docma/util/XMLParser.java:324-330 | one SEARCH_VALUE_START step: a quote opens the value, an unquoted value is an error |
| `XmlParser.ValueEndStep` | src/org/docma/util/XMLParser.java:332-343 | one SEARCH_VALUE_END step: the matching quote appends a name and a value together, '<' is an error |
| `XmlParser.ScanStep` | src/org/docma/util/XMLParser.java:282-344 | one round of the loop, in whichever state, preserves what the remaining scan will return |
| `XmlParser.ParseTagAttributes` | src/org/docma/util/XMLParser.java:264-349 | a negative offset raises; otherwise the lists are refilled pairwise (equal lengths) and the '>' index or the negated error position is returned, end of input before '>' included |
| `XmlParser.NameEnd` | src/org/docma/util/XMLParser.java:150-157 | an opening tag's name runs to the first '>', '/' or whitespace, or to the end of the text |
| `XmlParser.ScanNameEnd` | src/org/docma/util/XMLParser.java:150-157 | the name loop stops where `NameEnd` says |
| `XmlParser.BangStep` | src/org/docma/util/XMLParser.java:85-121 | a "<!" token is a comment, a CDATA section or a DOCTYPE (always skipped), each up to its terminator; otherwise a parse error |
| `XmlParser.PiStep` | src/org/docma/util/XMLParser.java:124-135 | a processing instruction runs to the first "?>" and is skipped when its flag is set |
| `XmlParser.EndStep` | src/org/docma/util/XMLParser.java:138-147 | a closing tag runs to the first '>'; its name is the trimmed text between "</" and '>' |
| `XmlParser.StartTagStep` | src/org/docma/util/XMLParser.java:149-167 | an opening tag is never skipped; it fails exactly when its attribute scan is a syntax error, and otherwise is a well-shaped start token from the '<' to one past the '>' |
| `XmlParser.StartStep` | src/org/docma/util/XMLParser.java:149-167 | the loop that reads an opening tag's name and attributes gives exactly the step `StartTagStep` defines |
| `XmlParser.ShapedUnderFlags` | src/org/docma/util/XMLParser.java:92-129 | a reported token stays valid under any flags that do not skip its kind |
| `XmlParser.TagStepOf` | src/org/docma/util/XMLParser.java:81-167 | one pass of the loop on a '<' dispatches on the next character ('!', '?', '/', otherwise a start tag); a skipped token moves the cursor forward, a reported one starts at the '<' and is well-shaped |
| `XmlParser.TagStep` | src/org/docma/util/XMLParser.java:81-167 | the statement form of one pass gives exactly the step `TagStepOf` defines |
| `XmlParser.NextToken` | src/org/docma/util/XMLParser.java:77-170 | the token `next()` reads: none when no '<' is left at or after the cursor; a reported token is well-shaped, starts at or after the cursor, and the cursor ends on its end; the cursor never moves back or past the text |
| `XmlParser.NextTokenOnStartTag` | src/org/docma/util/XMLParser.java:149-167 | wherever `<a>` starts at the cursor, the next token is the non-empty start tag `a` without attributes spanning those three characters |
| `XmlParser.FinishedStays` | src/org/docma/util/XMLParser.java:77-79 | once the tokenizer reports FINISHED, reading on from where it left off reports FINISHED again and the cursor stays |
| `XmlParser.NextTokenOnEndTag` | src/org/docma/util/XMLParser.java:138-147 | wherever `</a>` occurs, the token read there is the end tag `a` spanning those four characters |
| `XmlParser.ReadToken` | src/org/docma/util/XMLParser.java:77-170 | the loop of `next()` returns exactly the token and cursor `NextToken` defines: FINISHED when no '<' remains, the first token not skipped, or the error of the first malformed tag |
| `XmlParser.Apply` | src/org/docma/util/XMLParser.java:93-166 | a start tag sets every field; other tokens set type, offsets and name and keep emptiness and attributes |
| `XmlParser.PutPairs` | src/org/docma/util/XMLParser.java:200-218 | the map's keys are exactly the (optionally lower-cased) attribute names |
| `XmlParser.PutPairsLastWins` | src/org/docma/util/XMLParser.java:204-216 | a key holds the value of the last pair with that key |
| `XmlParser.Parser.constructor` | src/org/docma/util/XMLParser.java:48-67 | the cursor starts at the offset; comments, PIs and CDATA are skipped |
| `XmlParser.Parser.WithSkipFlags` | src/org/docma/util/XMLParser.java:53-59 | the cursor starts at 0 with the given skip flags |
| `XmlParser.Parser.Next` | src/org/docma/util/XMLParser.java:69-170 | the cursor moves to where `NextToken` leaves it; an error is passed on with the fields kept, no token is FINISHED, and a token is reported by its type and becomes the current event |
| `XmlParser.Parser.GetAttributes` | src/org/docma/util/XMLParser.java:182-190 | the current start tag's lists; after any other event the caller's lists unchanged |
| `XmlParser.Parser.GetAttributesLower` | src/org/docma/util/XMLParser.java:192-198 | the same with every name lower-cased |
| `XmlParser.Parser.GetAttributeMap` | src/org/docma/util/XMLParser.java:200-218 | on a start tag the map is refilled with exactly the attribute names as keys; otherwise the caller's map unchanged |
| `XmlParser.Parser.ReadUntilCorrespondingClosingTag` | src/org/docma/util/XMLParser.java:230-260 | fails unless on a start tag; an empty element returns at once; otherwise the result and the cursor are those `Matching` defines from the element's name at level 0, and on success the parser stands on a same-named end tag that closes the run |
| `XmlParser.NestingMoveOf` | src/org/docma/util/XMLParser.java:248-256 | a token is the closing tag exactly when it is a same-named (ignoring case) end tag at level 0; same-named non-empty start tags open a level and end tags close one |
| `XmlParser.Matching` | src/org/docma/util/XMLParser.java:240-259 | the search for the closing tag reads tokens one by one from the cursor; a success is always END_ELEMENT, tokenizer errors are passed on, and running out of tokens fails |
| `XmlParser.MatchingSkipsNested` | src/org/docma/util/XMLParser.java:240-259 | in `<a><a></a></a>` the search from after the first tag skips the nested `a` and stops at 14, after the last tag |
| `XmlParser.MatchingAdvances` | src/org/docma/util/XMLParser.java:240-259 | a pass that ends the search gives the whole search's answer; one that goes on leaves the same answer from the new cursor and level |
| `XmlParser.Parser.ReadToClosingTag` | src/org/docma/util/XMLParser.java:240-259 | the loop returns the result and cursor `Matching` defines; on success it stands on a same-named end tag and the run of same-named tags never closed more than it opened |
| `XmlParser.Parser.NestingStep` | src/org/docma/util/XMLParser.java:241-258 | one pass of that loop reads the next token as `NextToken` does and moves the level as `NestingMoveOf` says, or ends the search on an error, the end of the tokens or the closing tag |
| `XmlParser.AppendKeepsNeverBelow` | src/org/docma/util/XMLParser.java:248-256 | adding a tag to a run whose depth is not negative keeps every proper prefix at or above the starting depth and moves the depth by one |
| `XmlParser.AppendPrefixes` | src/org/docma/util/XMLParser.java:248-256 | the nesting depth moves by one per same-named open or close |
| `XmlElementContext.AttributeIndexFrom` | src/org/docma/util/impl/XMLElementContextImpl.java:111-117 | the first matching index at or after i, or -1 when none matches |
| `XmlElementContext.AttributeIndex` | src/org/docma/util/impl/XMLElementContextImpl.java:106-121 | the first index whose name matches (ignoring case when configured), -1 exactly when no name matches |
| `XmlElementContext.AttributeValue` | src/org/docma/util/impl/XMLElementContextImpl.java:133-137 | a value exactly when some name matches, namely the value at the first matching index; otherwise null |
| `XmlElementContext.AttributeIndexAppend` | src/org/docma/util/impl/XMLElementContextImpl.java:106-121 | appending a pair does not move an existing first match; it becomes the match only when there was none |
| `XmlElementContext.SetThenGet` | src/org/docma/util/impl/XMLElementContextImpl.java:172-190 | after setting a non-null value, reading that attribute gives the value |
| `XmlElementContext.SetMarksChanged` | src/org/docma/util/impl/XMLElementContextImpl.java:172-190 | the changed flag is raised by every non-null set, and by a null set exactly when the attribute was present |
| `XmlElementContext.RemoveDeletesFirstMatch` | src/org/docma/util/impl/XMLElementContextImpl.java:175-180 | setting null removes exactly the first matching pair from both lists and keeps the rest in order |
| `XmlElementContext.SetKeepsOthers` | src/org/docma/util/impl/XMLElementContextImpl.java:172-190 | attributes whose names do not match the one set read the same before and after |
| `XmlElementContext.RemovalKeepsOthers` | src/org/docma/util/impl/XMLElementContextImpl.java:177-178 | removing one pair keeps what every non-matching name reads |
| `XmlElementContext.ElementContext.constructor` | src/org/docma/util/impl/XMLElementContextImpl.java:28-41 | records the open tag and the attribute lists; close tag unset (-1), nothing replaced, case ignored |
| `XmlElementContext.ElementContext.SetClosingTagOffset` | src/org/docma/util/impl/XMLElementContextImpl.java:43-47 | sets the close tag offsets and nothing else |
| `XmlElementContext.ElementContext.SetIgnoreAttributeCase` | src/org/docma/util/impl/XMLElementContextImpl.java:49-52 | sets the case flag and nothing else |
| `XmlElementContext.ElementContext.GetAttributeIndex` | src/org/docma/util/impl/XMLElementContextImpl.java:106-121 | the loop returns `AttributeIndex` |
| `XmlElementContext.ElementContext.GetAttributeValue` | src/org/docma/util/impl/XMLElementContextImpl.java:133-137 | returns `AttributeValue` of the current lists |
| `XmlElementContext.ElementContext.Element` | src/org/docma/util/impl/XMLElementContextImpl.java:144-151 | only the open tag for an empty or unclosed element, otherwise the text from the open tag through the close tag |
| `XmlElementContext.ElementContext.ElementContent` | src/org/docma/util/impl/XMLElementContextImpl.java:153-160 | "" for an empty or unclosed element, otherwise the text between the tags |
| `XmlElementContext.ElementContext.View` | src/org/docma/util/impl/XMLElementContextImpl.java:91-160 | the interface getters: name, emptiness, attribute lists, offset, element and content |
| `XmlElementContext.ElementContext.ElementIsTagsAroundContent` | src/org/docma/util/impl/XMLElementContextImpl.java:144-160 | for a closed non-empty element, element = open tag + content + close tag |
| `XmlElementContext.ElementContext.ReplaceElement` | src/org/docma/util/impl/XMLElementContextImpl.java:162-165 | records the replacement element and nothing else |
| `XmlElementContext.ElementContext.ReplaceElementContent` | src/org/docma/util/impl/XMLElementContextImpl.java:167-170 | records the replacement content and nothing else |
| `XmlElementContext.ElementContext.SetAttribute` | src/org/docma/util/impl/XMLElementContextImpl.java:172-190 | the lists become `SetAttributeLists` of the old lists; the changed flag is raised as that function says |
| `XmlProcessor.WrittenValueHasNoQuote` | src/org/docma/util/impl/SimpleXMLProcessor.java:165 | a written attribute value contains no '"', so it cannot close its quotes early |
| `XmlProcessor.WriteAttributes` | src/org/docma/util/impl/SimpleXMLProcessor.java:161-169 | the loop writes ` name="value"` for every pair in order, '"' in values written as `&quot;` |
| `XmlProcessor.ProcessElement` | src/org/docma/util/impl/SimpleXMLProcessor.java:98 | the handler reads the context once and its calls are carried out in order: the context ends with exactly the edit `ActAll` makes of those calls, valid, with its close tag and case mode kept |
| `XmlProcessor.NextEvent` | src/org/docma/util/impl/SimpleXMLProcessor.java:176 | `xmlParser.next()`: the cursor moves to where the tokenizer leaves it; its error is passed on, no token is FINISHED, and a token is reported by its type and becomes the current event, lying after the old cursor, non-empty and ending at the new cursor |
| `XmlProcessor.RecordByTag` | src/org/docma/util/impl/SimpleXMLProcessor.java:176-209 | the first pass reads of a token only its kind, name and offsets, and all of a start tag |
| `XmlProcessor.CloseIn` | src/org/docma/util/impl/SimpleXMLProcessor.java:195-205 | an end tag pops open records: the stack that remains is a prefix of the old one and no record is lost |
| `XmlProcessor.CloseInAt` | src/org/docma/util/impl/SimpleXMLProcessor.java:198-204 | where the popping stops decides the close: the innermost open record with the end tag's name, and only it, gets the close offsets and the stack drops below it; with no such record the stack empties |
| `XmlProcessor.CloseInTags` | src/org/docma/util/impl/SimpleXMLProcessor.java:195-205 | closing never changes a record's open tag, name, emptiness or attributes |
| `XmlProcessor.Record` | src/org/docma/util/impl/SimpleXMLProcessor.java:177-205 | one token of the first pass keeps every open index pointing at a record |
| `XmlProcessor.CloseInOk` | src/org/docma/util/impl/SimpleXMLProcessor.java:195-205 | an end tag after every record keeps the records valid, ordered and before the cursor |
| `XmlProcessor.RecordOk` | src/org/docma/util/impl/SimpleXMLProcessor.java:175-209 | any token read at or after the cursor keeps the records valid, ordered and before the new cursor |
| `XmlProcessor.FirstPassOk` | src/org/docma/util/impl/SimpleXMLProcessor.java:171-211 | the records of a successful first pass lie in the input, with equally long attribute lists and close offsets after the open tag or unset, in document order without overlap |
| `XmlProcessor.FirstPassRecords` | src/org/docma/util/impl/SimpleXMLProcessor.java:177-194 | every record the first pass adds is a start tag of the input read at or after the cursor that a handler runs on; records it started with keep their open tags |
| `XmlProcessor.UnhandledRecordsNothing` | src/org/docma/util/impl/SimpleXMLProcessor.java:180 | with no handler and no default handler, the first pass records nothing |
| `XmlProcessor.Act` | src/org/docma/util/impl/SimpleXMLProcessor.java:98 | one handler call keeps the attribute lists of equal length |
| `XmlProcessor.ActAll` | src/org/docma/util/impl/SimpleXMLProcessor.java:98 | so does a whole run of calls |
| `XmlProcessor.SkipFrom` | src/org/docma/util/impl/SimpleXMLProcessor.java:137-146 | the index of the first record starting at or after the element end lies between the start index and the number of records |
| `XmlProcessor.RenderStep` | src/org/docma/util/impl/SimpleXMLProcessor.java:84-146 | one element of the second pass: the output is what was written, the input from the copy position to the element, the element's rewrite, and then the rest from the next element not inside a replaced one |
| `XmlProcessor.RenderUnchanged` | src/org/docma/util/impl/SimpleXMLProcessor.java:84-153 | when no visit writes anything or moves the copy position, the second pass copies the rest of the input unchanged |
| `XmlProcessor.SilentVisit` | src/org/docma/util/impl/SimpleXMLProcessor.java:92-135 | an element whose handler is missing or asks for nothing writes nothing and leaves the copy position at its start |
| `XmlProcessor.SilentOutput` | src/org/docma/util/impl/SimpleXMLProcessor.java:71-159 | when every registered handler asks for nothing, `process` writes exactly its input |
| `XmlProcessor.Processor.constructor` | src/org/docma/util/impl/SimpleXMLProcessor.java:19-27 | no handlers, no default handler, both case flags set |
| `XmlProcessor.Processor.ElementKey` | src/org/docma/util/impl/SimpleXMLProcessor.java:218-221 | the lower-cased name when element case is ignored, the name itself otherwise |
| `XmlProcessor.Processor.SameNameSameKey` | src/org/docma/util/impl/SimpleXMLProcessor.java:213-221 | two names are the same element name exactly when they share a handler key |
| `XmlProcessor.Processor.HandlerFor` | src/org/docma/util/impl/SimpleXMLProcessor.java:92-96 | the handler registered under the element's key, else the default handler |
| `XmlProcessor.Processor.SetElementHandler` | src/org/docma/util/impl/SimpleXMLProcessor.java:29-37 | null unregisters the key, any other handler is stored under it; every name equal to it then finds that handler (or the default) |
| `XmlProcessor.Processor.SetDefaultHandler` | src/org/docma/util/impl/SimpleXMLProcessor.java:39-42 | sets the default handler and nothing else |
| `XmlProcessor.Processor.SetIgnoreElementCase` | src/org/docma/util/impl/SimpleXMLProcessor.java:49-52 | sets the element case flag and nothing else |
| `XmlProcessor.Processor.SetIgnoreAttributeCase` | src/org/docma/util/impl/SimpleXMLProcessor.java:59-62 | sets the attribute case flag and nothing else |
| `XmlProcessor.Processor.ParseInput` | src/org/docma/util/impl/SimpleXMLProcessor.java:171-211 | an error is the first pass's error; on success the contexts hold exactly the first pass's records in order: open tag, name, emptiness, attributes and the close offsets the end tags gave them (unset while never closed); they are new, unchanged and do not overlap |
| `XmlProcessor.Processor.ReadAndRecord` | src/org/docma/util/impl/SimpleXMLProcessor.java:176-209 | one pass of the loop is one step of the first pass: FINISHED ends it with the records made, another token moves the cursor forward and leaves the same first pass from the new cursor, an error is its error |
| `XmlProcessor.Processor.RecordToken` | src/org/docma/util/impl/SimpleXMLProcessor.java:177-205 | the contexts after a token hold the records `Record` makes of it, in order, the open ones recorded and non-empty |
| `XmlProcessor.Processor.RecordStartTag` | src/org/docma/util/impl/SimpleXMLProcessor.java:177-194 | a start tag with a handler adds one new context after the others, opened when it is not empty; the contexts hold what `Record` makes |
| `XmlProcessor.Processor.RecordEndTag` | src/org/docma/util/impl/SimpleXMLProcessor.java:195-205 | an end tag adds no context; the contexts hold what `Record` makes of it |
| `XmlProcessor.Processor.RecordedDistinct` | src/org/docma/util/impl/SimpleXMLProcessor.java:190 | the recorded contexts are distinct objects, because their open tags do not overlap |
| `XmlProcessor.Processor.RecordStart` | src/org/docma/util/impl/SimpleXMLProcessor.java:177-194 | a context is recorded exactly when the default handler or a handler for the key exists, with the tag's offsets, emptiness, name and attributes |
| `XmlProcessor.Processor.CloseOpen` | src/org/docma/util/impl/SimpleXMLProcessor.java:195-205 | pops open contexts until one has the end tag's name and gives only that one the close offsets; if none has it the stack empties; the records become `CloseIn` of the old ones |
| `XmlProcessor.Processor.CloseAt` | src/org/docma/util/impl/SimpleXMLProcessor.java:199-203 | the context found gets the close offsets, and the contexts then hold the records with exactly that record closed |
| `XmlProcessor.Processor.PopTo` | src/org/docma/util/impl/SimpleXMLProcessor.java:198-204 | the index of the innermost open context with the end tag's name, none of those above it having the name; -1 when none has it |
| `XmlProcessor.Processor.Process` | src/org/docma/util/impl/SimpleXMLProcessor.java:71-159 | with an output, the result is `Output` of the input under the processor's configuration: the first pass's error, or the input with every visited element rewritten; with a null output nothing is written; the contexts open where the first pass's records do; with no handler nothing is recorded; when every handler asks for nothing the output is the input; no visited context starts inside a replaced element visited before it, every other context does, and those are left as they were |
| `XmlProcessor.Processor.Run` | src/org/docma/util/impl/SimpleXMLProcessor.java:80-153 | the two passes after the contexts are cleared: the same result and contexts as `Process` |
| `XmlProcessor.Processor.ParseAll` | src/org/docma/util/impl/SimpleXMLProcessor.java:73-81 | the first pass: an error is the first pass's error and leaves no context; on success the contexts hold the first pass's records, close offsets included, and are new, valid, unchanged and in order without overlap |
| `XmlProcessor.Processor.SecondPass` | src/org/docma/util/impl/SimpleXMLProcessor.java:83-153 | with an output, the result is `Render` of the records from the start: the text between elements copied, every visited element rewritten, the tail copied, or the range error; with a null output "" and no failure; the handlers run in document order, exactly on the contexts not inside an element replaced before them |
| `XmlProcessor.Processor.WalkContexts` | src/org/docma/util/impl/SimpleXMLProcessor.java:84-149 | the loop stops at a failed copy, which is the range error `Render` gives, or after the last context with the output so far followed by the tail `Render` still gives being the whole result; the contexts visited are in order, none inside an element replaced before it, every one passed over inside such an element, the others unchanged |
| `XmlProcessor.Processor.VisitNext` | src/org/docma/util/impl/SimpleXMLProcessor.java:84-146 | one pass of the loop: a failed copy changes nothing and is the range error of the whole result; otherwise the context is visited, the index moves past it and the contexts inside it when it was replaced, the output so far followed by what remains to be rendered is still the whole result, and only that context may change |
| `XmlProcessor.Processor.Advance` | src/org/docma/util/impl/SimpleXMLProcessor.java:137-146 | after a visit the index moves to `SkipFrom` past the element when it was replaced and is not empty, else to the next context, keeping the record of what was visited |
| `XmlProcessor.Processor.VisitAt` | src/org/docma/util/impl/SimpleXMLProcessor.java:85-136 | the visit changes only its own context and keeps its close tag; when it does not fail, the output grows by the input up to the element and the element's `VisitOf`, and the copy position and the replaced flag are `VisitOf`'s |
| `XmlProcessor.Processor.WalkOn` | src/org/docma/util/impl/SimpleXMLProcessor.java:137-146 | after a visited context and the contexts skipped inside it, every context passed over still lies inside a replaced element visited before it, and none visited does |
| `XmlProcessor.Processor.SkipStartingBefore` | src/org/docma/util/impl/SimpleXMLProcessor.java:137-146 | the first context from `from` on that starts at or after the end of the replaced element, which is `SkipFrom` of the records; all those before it start inside it |
| `XmlProcessor.Processor.StartsIncrease` | src/org/docma/util/impl/SimpleXMLProcessor.java:84-146 | contexts whose open tags follow each other start at strictly increasing offsets |
| `XmlProcessor.Processor.VisitElement` | src/org/docma/util/impl/SimpleXMLProcessor.java:85-136 | a copy position past the element is the range error and changes nothing; otherwise the output grows by the input from the copy position to the element and by `VisitOf` of the element's record (its handler's calls on a fresh context, then the rewrite), and the copy position and replaced flag are `VisitOf`'s |
| `XmlProcessor.RewriteElement` | src/org/docma/util/impl/SimpleXMLProcessor.java:99-135 | the text, copy position and replaced flag are `RewriteOf` of the record and the handler's edit: a replacement element as given, else the rewritten or kept open tag, the new content and a close tag; the copy position moves past the element exactly when it was replaced |
| `XmlProcessor.OpenTagText` | src/org/docma/util/impl/SimpleXMLProcessor.java:110-127 | the open tag is `OpenTagOf` of the record and the edit: changed attributes rewrite it ("/>" kept only for an empty element without new content); with only the content replaced the open tag is kept, an empty tag's "/>" becoming ">"; nothing when neither changed |
| `XmlUtil.AddedClass` | src/org/docma/util/XMLUtil.java:204-212 | without a class attribute the class is set to the new one; otherwise nothing is set exactly when the class is already a space-delimited token of the trimmed value, and a set value starts with the trimmed old value and ends with " class" |
| `XmlUtil.RemovedClass` | src/org/docma/util/XMLUtil.java:234-241 | no attribute means no call; a call always changes the trimmed value, and a value that is set is non-empty and trimmed (an empty result removes the attribute) |
| `XmlUtil.AddCssActions` | src/org/docma/util/XMLUtil.java:197-212 | elements whose name does not match ignoring case get no call; a matching one gets at most the one `setAttribute("class", …)` that `AddedClass` gives, and none exactly when that is none |
| `XmlUtil.RemoveCssActions` | src/org/docma/util/XMLUtil.java:227-241 | the same for the remove handler and `RemovedClass` |
| `XmlUtil.AddCssClass` | src/org/docma/util/XMLUtil.java:53-66 | an empty class or element name returns the content unchanged; otherwise exactly what `process` writes with element case ignored and the add handler registered under the element name |
| `XmlUtil.RemoveCssClass` | src/org/docma/util/XMLUtil.java:68-82 | the same with the remove handler |
| `XmlUtil.AddVisit` | src/org/docma/util/XMLUtil.java:197-212 | for any element of any document, the add handler rewrites the open tag of an element with the name (in any case) whose class list lacks the class, with `class` set to the extended list, and copying resumes after the open tag; every other element is left to the copy |
| `XmlUtil.RemoveVisit` | src/org/docma/util/XMLUtil.java:227-241 | the same for the remove handler: a changed class list rewrites the open tag with `class` set to what is left or removed, every other element is left to the copy |
| `XmlUtil.AddPresentIsNoChange` | src/org/docma/util/XMLUtil.java:53-66 | when every element with the name already lists the class, `addCSSClass` writes its input back unchanged |
| `XmlUtil.RemoveAbsentIsNoChangeAnywhere` | src/org/docma/util/XMLUtil.java:68-82 | when no element with the name lists the class, `removeCSSClass` writes its input back unchanged |
| `XmlUtil.ParagraphAttributes` | src/org/docma/util/XMLParser.java:264-349 | the attributes of `<p class="a">` scan to the '>' at 12 with the one pair class = a |
| `XmlUtil.ParagraphOpenTag` | src/org/docma/util/XMLParser.java:149-167 | the first token of `<p class="a">x</p>` is the non-empty start tag `p` from 0 to 13 with class = a |
| `XmlUtil.ParagraphCloseTag` | src/org/docma/util/XMLParser.java:138-147 | the token read after it is the end tag `p` from 14 to 18, and the cursor stops at 18 |
| `XmlUtil.ParagraphPass` | src/org/docma/util/impl/SimpleXMLProcessor.java:171-211 | the first pass over `<p class="a">x</p>` with a handler for `p` makes the one record of the open tag, closed by the tag at 14..18 |
| `XmlUtil.ParagraphRewrittenTag` | src/org/docma/util/impl/SimpleXMLProcessor.java:110-115 | the rewritten open tag of that paragraph with class `a b` is `<p class="a b">` |
| `XmlUtil.AddBToA` | src/org/docma/util/XMLUtil.java:204-212 | adding class `b` to class `a` sets `a b` |
| `XmlUtil.SetSoleClass` | src/org/docma/util/impl/XMLElementContextImpl.java:172-190 | setting `class` on an element whose only attribute is `class` replaces its value and marks the attributes changed |
| `XmlUtil.ParagraphVisit` | src/org/docma/util/XMLUtil.java:197-212 | the add handler's visit of that paragraph writes `<p class="a b">` and copying resumes at 13 |
| `XmlUtil.AddClassToParagraph` | src/org/docma/util/XMLUtil.java:53-66 | `addCSSClass("<p class=\"a\">x</p>", "p", "b")` writes `<p class="a b">x</p>` |
| `XmlUtil.EscapePCData` | src/org/docma/util/XMLUtil.java:166-169 | the result contains no '<' and no '>', and text without them is returned as is |
| `XmlUtil.EscapeDoubleQuotedCData` | src/org/docma/util/XMLUtil.java:161-164 | the result contains no '"', and text without one is returned as is |
| `XmlUtil.EscapesDistribute` | src/org/docma/util/XMLUtil.java:161-169 | both escapes distribute over concatenation |
| `XmlUtil.AddIsIdempotent` | src/org/docma/util/XMLUtil.java:204-212 | applying the add handler to the value it produced makes no further call |
| `XmlUtil.AddedToken` | src/org/docma/util/XMLUtil.java:209-210 | the value the add handler sets contains the class as a token |
| `XmlUtil.ReplaceAbsent` | src/org/docma/util/XMLUtil.java:237 | `replace` leaves a string without the target unchanged |
| `XmlUtil.RemoveAbsentIsNoChange` | src/org/docma/util/XMLUtil.java:234-241 | removing a class that is not a token makes no call |
| `XmlUtil.RemoveSoleClass` | src/org/docma/util/XMLUtil.java:237-239 | removing the only class removes the attribute; remove after add on an element without a class removes it again |
| `XmlUtil.RemoveOneClass` | src/org/docma/util/XMLUtil.java:234-241 | for classes listed with single blanks, where the removed class occurs once and every token is free of blanks, the value set is the other classes in their order, and the attribute is removed when there are none |
| `XmlUtil.RemoveRepeatedClass` | src/org/docma/util/XMLUtil.java:237 | `replace` does not rescan its own output: removing `c` from `"c c c"` sets `"c"`, one `c` remaining |
| `XmlUtil.SkipTokens` | src/org/docma/util/XMLUtil.java:237 | the replace scan passes unchanged over blank-led tokens that differ from the removed class |
| `XmlUtil.ReplaceMatch` | src/org/docma/util/XMLUtil.java:237 | the blank-led class between blanks is replaced by one blank and what follows is kept |
| `XmlUtil.ReplaceOne` | src/org/docma/util/XMLUtil.java:237 | in the blank-framed class list, the one occurrence of the class is dropped and the other tokens kept |
| `CssParser.ValueEndFrom` | src/org/docma/util/CSSParser.java:57-106 | the scan stops at or after the position, at a ';' or at the end of the text |
| `CssParser.ValueEnd` | src/org/docma/util/CSSParser.java:57-106 | a value ends at a top-level ';' or at the end of the text, never before its offset |
| `CssParser.ParsePropValue` | src/org/docma/util/CSSParser.java:57-106 | the state-machine loop returns `ValueEnd` |
| `CssParser.PlainValueEndsAtSemicolon` | src/org/docma/util/CSSParser.java:72-75 | without quotes or slashes a value ends at the first ';', or at the end |
| `CssParser.QuotedTextIsSkipped` | src/org/docma/util/CSSParser.java:86-90 | inside a string the value does not end before the matching quote |
| `CssParser.CommentIsSkipped` | src/org/docma/util/CSSParser.java:91-97 | inside a comment the value does not end before the closing star-slash |
| `CssParser.QuotedValueDoesNotEndInside` | src/org/docma/util/CSSParser.java:76-90 | a ';' inside a quoted value does not end it |
| `CssParser.NameStart` | src/org/docma/util/CSSParser.java:37-41 | a comment at a declaration's start is skipped, to the end of the text if unclosed |
| `CssParser.SpanAt` | src/org/docma/util/CSSParser.java:43-50 | a declaration exists exactly when a ':' follows; its name precedes the ':' and its value runs to the value end |
| `CssParser.SpansFrom` | src/org/docma/util/CSSParser.java:28-53 | the declarations read in order, each lying in the text |
| `CssParser.EntryIsTrimmed` | src/org/docma/util/CSSParser.java:47-50 | names and values in the map are trimmed |
| `CssParser.ParseCssProperties` | src/org/docma/util/CSSParser.java:24-55 | the loop returns `Properties`: every declaration put in order |
| `CssParser.ParseStep` | src/org/docma/util/CSSParser.java:29-53 | one round skips a separator, reads a declaration, or stops when no ':' remains |
| `CssParser.ReadDeclaration` | src/org/docma/util/CSSParser.java:37-52 | a declaration is read exactly as `SpansFrom` says, and the scan resumes at its end |
| `CssParser.PutAllKeys` | src/org/docma/util/CSSParser.java:51 | the map's names are exactly the names of the declarations |
| `CssParser.PutAllLastWins` | src/org/docma/util/CSSParser.java:51 | a later declaration of a name overwrites an earlier one |
| `CssParser.SeparatorsSkipped` | src/org/docma/util/CSSParser.java:32-35 | ';' and whitespace between declarations are skipped |
| `CssParser.NoColonNoEntries` | src/org/docma/util/CSSParser.java:43-46 | once no ':' remains nothing more is read |
| `CssParser.SingleDeclaration` | src/org/docma/util/CSSParser.java:24-55 | "name: value" alone gives the one entry trimmed name to trimmed value |
| `CssParser.PropertiesOfOne` | src/org/docma/util/CSSParser.java:51 | one declaration yields a map with one entry |
| `CssUtil.TokenEnd` | src/org/docma/util/CSSUtil.java:36-38 | a token runs over non-delimiters up to the first delimiter or the end |
| `CssUtil.Tokens` | src/org/docma/util/CSSUtil.java:36-38 | the tokenizer returns non-empty tokens without delimiters, in order |
| `CssUtil.TokensOfJoin` | src/org/docma/util/CSSUtil.java:36-43 | tokens joined with single spaces tokenize back to the same tokens |
| `CssUtil.TokenOfToken` | src/org/docma/util/CSSUtil.java:36-38 | a token followed by a delimiter or the end is read whole |
| `CssUtil.TokenEndOfToken` | src/org/docma/util/CSSUtil.java:36-38 | a token's end is its length when a delimiter or the end follows |
| `CssUtil.AllTokensSnoc` | src/org/docma/util/CSSUtil.java:34-42 | the tokens of one more argument come after those of the earlier ones; a null adds nothing |
| `CssUtil.AllTokensAreTokens` | src/org/docma/util/CSSUtil.java:34-42 | every collected token is a tokenizer token |
| `CssUtil.DedupIsDistinctCover` | src/org/docma/util/CSSUtil.java:39 | the kept list has no repeats and holds exactly the collected tokens |
| `CssUtil.DedupOfDistinct` | src/org/docma/util/CSSUtil.java:39 | a list without repeats is kept as it is |
| `CssUtil.FirstIndex` | src/org/docma/util/CSSUtil.java:39 | the position of the first occurrence |
| `CssUtil.FirstIndexInPrefix` | src/org/docma/util/CSSUtil.java:39 | a first occurrence within a prefix is the first occurrence overall |
| `CssUtil.DedupKeepsFirstOrder` | src/org/docma/util/CSSUtil.java:39 | kept tokens are in the order of their first occurrences |
| `CssUtil.FirstIndexOfNew` | src/org/docma/util/CSSUtil.java:39 | a last element not seen before first occurs at the end |
| `CssUtil.DedupSnoc` | src/org/docma/util/CSSUtil.java:39 | a further token is kept exactly when it is not yet listed |
| `CssUtil.AddNewTokens` | src/org/docma/util/CSSUtil.java:36-40 | the inner loop adds each token of an argument unless it is listed already |
| `CssUtil.MergeCssClasses` | src/org/docma/util/CSSUtil.java:31-44 | the result is every token of the non-null arguments once, in first-occurrence order, joined with single spaces |
| `CssUtil.MergedTokens` | src/org/docma/util/CSSUtil.java:31-44 | the merged string tokenizes back to a repeat-free list holding exactly the arguments' tokens |
| `CssUtil.UnitStartBefore` | src/org/docma/util/CSSUtil.java:64-69 | the backward scan stops after the last character that is not a letter or '%' |
| `CssUtil.UnitStart` | src/org/docma/util/CSSUtil.java:80-85 | the unit is the longest trailing run of letters and '%' |
| `CssUtil.UnitScan` | src/org/docma/util/CSSUtil.java:80-85 | the loop stops one before `UnitStart` |
| `CssUtil.GetSizeUnit` | src/org/docma/util/CSSUtil.java:78-88 | the trailing run of letters and '%' |
| `CssUtil.GetSizeInt` | src/org/docma/util/CSSUtil.java:62-76 | the Java int parsed from the text before the unit, or 0 when it does not parse |
| `CssUtil.SizeSplits` | src/org/docma/util/CSSUtil.java:72-87 | number text and unit together are the size text |
| `CssUtil.SizeRoundTrip` | src/org/docma/util/CSSUtil.java:62-88 | an int written before a unit splits back into that int and that unit |
| `CssUtil.UnitStartAfter` | src/org/docma/util/CSSUtil.java:64-69 | the unit starts right after the last non-unit character |
| `ByteStreams.ByteStream.constructor` | src/org/docma/coreapi/DocStoreUtilities.java:1672 | a content stream positioned before its first byte |
| `ByteStreams.ByteStream.Read` | src/org/docma/coreapi/DocStoreUtilities.java:1694-1700 | -1 at the end; otherwise between 1 and the buffer's length of the next bytes, copied to the buffer's front, and consumed |
| `ByteStreams.Refill` | src/org/docma/coreapi/DocStoreUtilities.java:1692-1703 | a used-up buffer is refilled with the stream's next bytes, or the count becomes -1 exactly at the end; a partly used one is kept; buffered and unread bytes together stay the remaining content |
| `ByteStreams.StreamsAreEqual` | src/org/docma/coreapi/DocStoreUtilities.java:1672-1714 | true iff both streams are null, or both are present and deliver the same bytes up to their ends, whatever chunk sizes their reads deliver |
| `ByteStreams.CompareBuffered` | src/org/docma/coreapi/DocStoreUtilities.java:1684-1691 | a difference in the buffered bytes means the contents differ; otherwise the compared prefixes agree and one buffer is used up |
| `CopyWalk.AttemptCalls` | src/org/docma/coreapi/DocStoreUtilities.java:503-519 | a retry deletes the failed copy and then attempts again; the first attempt is one call |
| `CopyWalk.Attempts` | src/org/docma/coreapi/DocStoreUtilities.java:503-533 | k attempts make 2k-1 calls and end with the k-th attempt |
| `CopyWalk.AllCopiedAppend` | src/org/docma/coreapi/DocStoreUtilities.java:495-551 | versions copied by two consecutive parts of a walk are copied by the whole walk |
| `CopyWalk.FailedAsAllowedAfter` | src/org/docma/coreapi/DocStoreUtilities.java:521-527 | an allowed failure stays allowed when earlier calls precede it |
| `CopyWalk.CopyVersionsRecursive` | src/org/docma/coreapi/DocStoreUtilities.java:481-552 | the calls are well formed (attempts 1 to 3, a retry preceded by deleting the failed copy, no call on a skipped version); on success every version of the trees below the given ones that is not skipped was copied, and verified when asked; a failure is a cancel or the error of a last allowed attempt; a cancel flag already set ends it at once |
| `CopyWalk.CopyVersionAndSubs` | src/org/docma/coreapi/DocStoreUtilities.java:495-550 | the same for one version and then its sub-versions |
| `CopyWalk.VisitVersion` | src/org/docma/coreapi/DocStoreUtilities.java:496-544 | checks the cancel flag first; a skipped version makes no call; otherwise the copy with retries, a finished step, and the verification when asked |
| `CopyWalk.CopyWithRetries` | src/org/docma/coreapi/DocStoreUtilities.java:500-533 | at most three attempts, each retry after a failure that did not see the cancel flag set; success iff the last attempt succeeded; its error is rethrown after the third attempt or when the cancel flag is set |
| `CopyWalk.AttemptsOrderly` | src/org/docma/coreapi/DocStoreUtilities.java:503-533 | the attempts at a version that is not skipped are well formed |
| `CopyWalk.OrderlyAppend` | src/org/docma/coreapi/DocStoreUtilities.java:495-551 | well-formed call sequences concatenate to a well-formed one |
| `VersionStores.DerivedOnesMeans` | src/org/docma/coreapi/DocStoreUtilities.java:128-138 | a version is in the filtered list iff it is listed and derived from the given base |
| `VersionStores.SubVersionsRankBelow` | src/org/docma/coreapi/DocStoreSession.java:77-78 | with acyclic derived-from links, every sub-version ranks below its base version |
| `VersionStores.SetPropsReads` | src/org/docma/coreapi/DocStoreSession.java:53-58 | after writing distinct names each reads back its value (null removes it) and every other property is kept |
| `VersionStores.WithoutMeans` | src/org/docma/coreapi/DocStoreSession.java:67 | a version remains iff it was listed and was not deleted |
| `VersionStores.WithoutTwice` | src/org/docma/coreapi/DocStoreSession.java:67 | deleting one set of versions, then another, is deleting both at once |
| `VersionStores.WithoutNothing` | src/org/docma/coreapi/DocStoreSession.java:67 | deleting no version keeps the list |
| `VersionStores.WithoutVersionKeeps` | src/org/docma/coreapi/DocStoreSession.java:62-77 | deleting a version removes it from the list and keeps every other version with its base link |
| `VersionStores.WithoutVersionRanked` | src/org/docma/coreapi/DocStoreSession.java:67-77 | deleting a version keeps the derived-from links acyclic |
| `DocStoreSessions.InternalStorePropertyNames` | src/org/docma/coreapi/implementation/AbstractDocStoreSession.java:90-101 | a store property is internal iff it is the rendition-name list or the UUID, or starts with a rendition format, width or height prefix |
| `DocStoreSessions.InternalVersionPropertyNames` | src/org/docma/coreapi/implementation/AbstractDocStoreSession.java:103-114 | a version property is internal iff it is the state, creation date, release date or UUID, or starts with a per-language state or release-date prefix |
| `DocStoreSessions.VersionState` | src/org/docma/coreapi/implementation/AbstractDocStoreSession.java:339-372 | never empty; a stored non-empty state is returned as is; a missing or empty one is Draft, except that a translation of a derived version is TranslationPending while its base's translation is not Released |
| `DocStoreSessions.StateNamesDiffer` | src/org/docma/coreapi/implementation/AbstractDocStoreSession.java:389-393 | Draft, Released and TranslationPending differ ignoring case |
| `DocStoreSessions.PendingHooks` | src/org/docma/coreapi/implementation/AbstractDocStoreSession.java:430-432 | one back-to-pending call per sub-version, in order |
| `DocStoreSessions.StateChangeOf` | src/org/docma/coreapi/implementation/AbstractDocStoreSession.java:383-437 | an equal state (ignoring case) is no change; a change needs an old state other than TranslationPending and a new state Draft or Released; unreleasing an original needs no sub-versions, unreleasing a translation needs no released sub-version and then sets every sub-version back to pending |
| `DocStoreSessions.StateAndDateKeysDiffer` | src/org/docma/coreapi/implementation/AbstractDocStoreSession.java:440-444 | the state and release-date keys of one language differ |
| `DocStoreSessions.WriteStateReadsBack` | src/org/docma/coreapi/implementation/AbstractDocStoreSession.java:439-447 | the new state reads back, and the release date is the time when releasing and removed otherwise |
| `DocStoreSessions.WriteStateKeepsOthers` | src/org/docma/coreapi/implementation/AbstractDocStoreSession.java:439-447 | the version then reports the new state; the version list, the base links and every other version's properties are kept |
| `DocStoreSessions.ReleasingBaseLiftsPending` | src/org/docma/coreapi/implementation/AbstractDocStoreSession.java:355-364 | a translation without its own state is pending while the base's translation is not released, and becomes Draft once it is |
| `DocStoreSessions.UnreleasingBaseRestoresPending` | src/org/docma/coreapi/implementation/AbstractDocStoreSession.java:355-364 | setting the base's translation back to Draft makes the sub-version's translation pending again |
| `DocStoreSessions.ReleaseDateLostForUpperCaseLanguage` | src/org/docma/coreapi/implementation/AbstractDocStoreSession.java:440-469 | as written, a release in translation mode "DE" stores the date under ".de" but the reader looks under ".DE" and finds nothing, while the intended reader finds the release time |
| `DocStoreSessions.ReleaseDate` | src/org/docma/coreapi/implementation/AbstractDocStoreSession.java:456-469 | `getVersionReleaseDate`: a value exactly when the property under the key with the language as given is present and parses as a Java long, and then that long |
| `DocStoreSessions.ReleaseDateIntended` | src/org/docma/coreapi/implementation/AbstractDocStoreSession.java:456-469 | the reader as intended, under the lower-cased key that the state change writes: a value only when it parses as a Java long |
| `DocStoreSessions.ReleaseRecordsDate` | src/org/docma/coreapi/implementation/AbstractDocStoreSession.java:439-469 | as intended, after a release the release date reads back the time of the change; after going to Draft there is none |
| `DocStoreSessions.ReleaseRecordsDateLowerCase` | src/org/docma/coreapi/implementation/AbstractDocStoreSession.java:439-469 | as written, the same holds for the original language and for a language code without upper-case letters |
| `DocStoreSessions.CheckRenameVersion` | src/org/docma/coreapi/implementation/AbstractDocStoreSession.java:117-141 | connected users refuse the rename with their message; success needs the old id listed |
| `DocStoreSessions.RenameKeepsOrder` | src/org/docma/coreapi/implementation/AbstractDocStoreSession.java:117-141 | on an increasing version list, the rename is accepted iff no user is connected, the old id is listed and the list stays increasing with the new id in its place |
| `DocStoreSessions.CheckCreateVersion` | src/org/docma/coreapi/implementation/AbstractDocStoreSession.java:143-154 | accepted iff there is no base, or the base is Released and the new id is higher; a base that is not Released gives "Cannot derive version from draft version." |
| `DocStoreSessions.CreateFromReleasedBase` | src/org/docma/coreapi/implementation/AbstractDocStoreSession.java:143-154 | after releasing a base, a higher new version may be derived from it |
| `DocStoreSessions.ImageRenditionOf` | src/org/docma/coreapi/implementation/AbstractDocStoreSession.java:527-561 | a rendition read has the asked name and valid fields; an invalid one gives "Could not load image rendition: " + name |
| `DocStoreSessions.RenditionKeysDistinct` | src/org/docma/coreapi/implementation/AbstractDocStoreSession.java:585-589 | the four rendition property keys of a name differ |
| `DocStoreSessions.VisibleSurvivesTrim` | src/org/docma/coreapi/implementation/AbstractDocStoreSession.java:511 | text with a visible character does not trim to nothing |
| `DocStoreSessions.ValidNameHasNoComma` | src/org/docma/coreapi/implementation/AbstractDocStoreSession.java:576-584 | a valid rendition name has no comma, so the comma-joined list splits back |
| `DocStoreSessions.NamesReadBack` | src/org/docma/coreapi/implementation/AbstractDocStoreSession.java:576-595 | the name list written reads back as the same names |
| `DocStoreSessions.SortedNamesValid` | src/org/docma/coreapi/implementation/AbstractDocStoreSession.java:583 | sorting keeps the names valid and yields a sorted list of the same length |
| `DocStoreSessions.RemoveFirstValid` | src/org/docma/coreapi/implementation/AbstractDocStoreSession.java:620 | removing a name keeps the rest valid |
| `DocStoreSessions.AddedRenditionIsListed` | src/org/docma/coreapi/implementation/AbstractDocStoreSession.java:563-604 | after adding, the list is the sorted old list plus the name, and the rendition reads back when its format is not blank |
| `DocStoreSessions.RenditionReadsBack` | src/org/docma/coreapi/implementation/AbstractDocStoreSession.java:537-595 | the four written properties read back as the rendition |
| `DocStoreSessions.RenditionFromProps` | src/org/docma/coreapi/implementation/AbstractDocStoreSession.java:537-551 | format, width and height properties that hold the rendition's fields load it |
| `DocStoreSessions.DeletedRenditionIsUnlisted` | src/org/docma/coreapi/implementation/AbstractDocStoreSession.java:606-638 | after deleting, the list lacks the name's first occurrence and the rendition no longer loads |
| `DocStoreSessions.OwnKeysDiffer` | src/org/docma/coreapi/implementation/AbstractDocStoreSession.java:585-626 | the property keys of one name differ from those of another |
| `DocStoreSessions.OtherRenditionKept` | src/org/docma/coreapi/implementation/AbstractDocStoreSession.java:595-628 | writing one rendition's keys keeps every other rendition |
| `DocStoreSessions.LoadFromSucceeds` | src/org/docma/coreapi/implementation/AbstractDocStoreSession.java:514-516 | loading the list succeeds iff every listed name loads |
| `DocStoreSessions.LoadFromValues` | src/org/docma/coreapi/implementation/AbstractDocStoreSession.java:514-516 | the loaded array holds each name's rendition in list order |
| `DocStoreSessions.LoadFromError` | src/org/docma/coreapi/implementation/AbstractDocStoreSession.java:514-516 | a failed load is the error of some listed name |
| `DocStoreSessions.LoadRenditionsMeaning` | src/org/docma/coreapi/implementation/AbstractDocStoreSession.java:499-525 | the renditions array has one entry per listed name, in order, or the first failure |
| `DocStoreSessions.DeletedStep` | src/org/docma/coreapi/implementation/AbstractDocStoreSession.java:263-279 | deleting a version's sub-versions and then the version keeps the recursion's invariant |
| `DocStoreSessions.DocStoreSession.constructor` | src/org/docma/coreapi/implementation/AbstractDocStoreSession.java:71-83 | no translation mode, no open store, no transaction |
| `DocStoreSessions.DocStoreSession.EnterTranslationMode` | src/org/docma/coreapi/implementation/AbstractDocStoreSession.java:296-299 | sets the translation language and nothing else |
| `DocStoreSessions.DocStoreSession.LeaveTranslationMode` | src/org/docma/coreapi/implementation/AbstractDocStoreSession.java:301-304 | clears it and nothing else |
| `DocStoreSessions.DocStoreSession.CurrentVersionState` | src/org/docma/coreapi/implementation/AbstractDocStoreSession.java:333-337 | `VersionState` in the current translation mode |
| `DocStoreSessions.DocStoreSession.AnyReleased` | src/org/docma/coreapi/implementation/AbstractDocStoreSession.java:418-424 | true iff some sub-version is Released in the current mode |
| `DocStoreSessions.DocStoreSession.SetBackToPending` | src/org/docma/coreapi/implementation/AbstractDocStoreSession.java:430-432 | calls the back-to-pending hook once per sub-version, in order |
| `DocStoreSessions.DocStoreSession.SetVersionState` | src/org/docma/coreapi/implementation/AbstractDocStoreSession.java:374-453 | follows `StateChangeOf`: no change and refusals leave the store as it was (refusals with their messages); a change calls its hooks and writes the state and release date |
| `DocStoreSessions.DocStoreSession.CurrentReleaseDate` | src/org/docma/coreapi/implementation/AbstractDocStoreSession.java:456-469 | `ReleaseDate` in the current mode |
| `DocStoreSessions.DocStoreSession.SetVersionReleaseDate` | src/org/docma/coreapi/implementation/AbstractDocStoreSession.java:471-481 | writes the date's milliseconds under the key with the language as given, and the getter then reads them back |
| `DocStoreSessions.DocStoreSession.StartLocalTransaction` | src/org/docma/coreapi/implementation/AbstractDocStoreSession.java:157-171 | starts a transaction and returns true iff none was running |
| `DocStoreSessions.DocStoreSession.CommitLocalTransaction` | src/org/docma/coreapi/implementation/AbstractDocStoreSession.java:173-180 | commits only when the caller started the transaction |
| `DocStoreSessions.DocStoreSession.RollbackLocalTransaction` | src/org/docma/coreapi/implementation/AbstractDocStoreSession.java:182-185 | rolls back only when the caller started the transaction |
| `DocStoreSessions.DocStoreSession.RollbackLocalTransactionAndFail` | src/org/docma/coreapi/implementation/AbstractDocStoreSession.java:187-199 | the same, then rethrows the error |
| `DocStoreSessions.DocStoreSession.CommitAndRestart` | src/org/docma/coreapi/DocStoreUtilities.java:841-843 | a running transaction is committed and a new one started |
| `DocStoreSessions.DocStoreSession.CommitIfRunning` | src/org/docma/coreapi/DocStoreUtilities.java:652-653 | a running transaction is committed |
| `DocStoreSessions.DocStoreSession.AddImageRendition` | src/org/docma/coreapi/implementation/AbstractDocStoreSession.java:563-604 | a listed name gives "Rendition already exists: " + name and no change; otherwise the sorted list and the four properties are written |
| `DocStoreSessions.DocStoreSession.DeleteImageRendition` | src/org/docma/coreapi/implementation/AbstractDocStoreSession.java:606-638 | true iff the name was listed; then the list without it is written and its three properties removed |
| `DocStoreSessions.DocStoreSession.OpenDocStore` | src/org/docma/coreapi/implementation/AbstractDocStoreSession.java:236-244 | the store becomes the open one |
| `DocStoreSessions.DocStoreSession.CloseDocStore` | src/org/docma/coreapi/implementation/AbstractDocStoreSession.java:246-254 | no store is open |
| `DocStoreSessions.DocStoreSession.GetImageRenditions` | src/org/docma/coreapi/implementation/AbstractDocStoreSession.java:499-525 | `LoadRenditions` of the listed names |
| `DocStoreSessions.DocStoreSession.GetDocStoreUuid` | src/org/docma/coreapi/implementation/AbstractDocStoreSession.java:641-657 | a stored UUID is returned; otherwise one derived from the store id and the time is stored and registered, failing iff it is registered to something else |
| `DocStoreSessions.DocStoreSession.SetDocStoreUuid` | src/org/docma/coreapi/implementation/AbstractDocStoreSession.java:660-669 | an assigned UUID refuses with its message; otherwise it is stored and registered |
| `DocStoreSessions.DocStoreSession.GetVersionUuid` | src/org/docma/coreapi/implementation/AbstractDocStoreSession.java:678-694 | the same for a version, from store id, version id and time |
| `DocStoreSessions.DocStoreSession.SetVersionUuid` | src/org/docma/coreapi/implementation/AbstractDocStoreSession.java:697-706 | the same for a version |
| `DocStoreSessions.DocStoreSession.DeleteVersionsRecursive` | src/org/docma/coreapi/implementation/AbstractDocStoreSession.java:256-282 | without a cancel it succeeds; every given version is deleted, sub-versions first, and no remaining version derives from one; remaining versions keep their base links |
| `DocStoreSessions.DocStoreSession.DeleteVersionStep` | src/org/docma/coreapi/implementation/AbstractDocStoreSession.java:263-278 | one version: its sub-versions, then itself unless already deleted; a cancel before deleting it fails with "Canceled by user." |
| `DocStoreManagers.PutVersionsKeys` | src/org/docma/coreapi/implementation/AbstractDocStoreManager.java:80-92 | after the version loop the registry holds the old UUIDs and those of the store's versions that have one |
| `DocStoreManagers.RegistryKeys` | src/org/docma/coreapi/implementation/AbstractDocStoreManager.java:59-99 | the built registry holds exactly the UUIDs of the listed stores and of their versions that could be read |
| `DocStoreManagers.LastStoreIsRegistered` | src/org/docma/coreapi/implementation/AbstractDocStoreManager.java:67-72 | a store's UUID is registered to the store unless one of its own versions reuses it |
| `DocStoreManagers.PutVersionsKeep` | src/org/docma/coreapi/implementation/AbstractDocStoreManager.java:87 | versions with other UUIDs keep an earlier entry |
| `DocStoreManagers.OpenSession.constructor` | src/org/docma/coreapi/implementation/AbstractDocStoreManager.java:232-234 | a new session: id is the serial in decimal, no store open |
| `DocStoreManagers.OpenSession.OpenDocStore` | src/org/docma/coreapi/implementation/AbstractDocStoreManager.java:254-255 | the session's store and version become the opened ones |
| `DocStoreManagers.OpenSession.CloseDocStore` | src/org/docma/coreapi/implementation/AbstractDocStoreManager.java:254-255 | the session has no store open |
| `DocStoreManagers.ConnectedUsersMeans` | src/org/docma/coreapi/implementation/AbstractDocStoreManager.java:249-261 | a user is connected iff one of the open sessions is theirs and matches the store (and version) asked for, null matching any |
| `DocStoreManagers.StoreKey` | src/org/docma/coreapi/implementation/AbstractDocStoreManager.java:38-41 | the key is store id, a space and version id |
| `DocStoreManagers.StoreKeyInjective` | src/org/docma/coreapi/implementation/AbstractDocStoreManager.java:38-41 | for store ids without spaces, equal keys mean equal store and version ids |
| `DocStoreManagers.SpaceInside` | src/org/docma/coreapi/implementation/AbstractDocStoreManager.java:38-41 | when keys agree but the store ids differ in length, the longer store id has a space where the shorter one ends |
| `DocStoreManagers.StoreKeyCollides` | src/org/docma/coreapi/implementation/AbstractDocStoreManager.java:38-41 | store "a b" version "1" and store "a" version "b 1" share a key, so the key identifies an instance only for store ids without spaces |
| `DocStoreManagers.RemoveKeepsIncreasing` | src/org/docma/coreapi/implementation/AbstractDocStoreManager.java:204-207 | removing a session keeps the open sessions in increasing serial order and adds none |
| `DocStoreManagers.DeleteAtKeepsIncreasing` | src/org/docma/coreapi/implementation/AbstractDocStoreManager.java:206 | removing one entry keeps the order increasing |
| `DocStoreManagers.SessionIdsDiffer` | src/org/docma/coreapi/implementation/AbstractDocStoreManager.java:233 | different serials give different session ids |
| `DocStoreManagers.DocStoreManager.constructor` | src/org/docma/coreapi/implementation/AbstractDocStoreManager.java:31-33 | no registry, no store instances, no open sessions, serial 0 |
| `DocStoreManagers.DocStoreManager.InitUuidMap` | src/org/docma/coreapi/implementation/AbstractDocStoreManager.java:59-99 | a built registry is kept; an unbuilt one is built from the stores and their versions |
| `DocStoreManagers.DocStoreManager.RegisterDocStoreUuid` | src/org/docma/coreapi/implementation/AbstractDocStoreManager.java:103-122 | nothing while the registry is unbuilt; a new UUID is added; one already mapped to the same store is a no-op, to anything else "Cannot reassign UUID!" |
| `DocStoreManagers.DocStoreManager.RegisterVersionUuid` | src/org/docma/coreapi/implementation/AbstractDocStoreManager.java:124-143 | the same for version addresses |
| `DocStoreManagers.DocStoreManager.GetDocStoreIdByUuid` | src/org/docma/coreapi/implementation/AbstractDocStoreManager.java:145-150 | builds the registry if needed; the store id iff the UUID maps to a store |
| `DocStoreManagers.DocStoreManager.GetVersionAddressByUuid` | src/org/docma/coreapi/implementation/AbstractDocStoreManager.java:152-157 | builds the registry if needed; the address iff the UUID maps to a version |
| `DocStoreManagers.DocStoreManager.AcquireStore` | src/org/docma/coreapi/implementation/AbstractDocStoreManager.java:161-170 | the cached instance for the key, or a new one that is then cached |
| `DocStoreManagers.DocStoreManager.GetConnectedUsers` | src/org/docma/coreapi/implementation/AbstractDocStoreManager.java:249-261 | `ConnectedUsers` of the open sessions |
| `DocStoreManagers.DocStoreManager.ReleaseStore` | src/org/docma/coreapi/implementation/AbstractDocStoreManager.java:172-176 | drops the instance only when no user is connected to it |
| `DocStoreManagers.DocStoreManager.DestroyStoreInstance` | src/org/docma/coreapi/implementation/AbstractDocStoreManager.java:182-189 | fails with its message iff users are connected to the version; otherwise drops the instance |
| `DocStoreManagers.DocStoreManager.DestroyStoreInstances` | src/org/docma/coreapi/implementation/AbstractDocStoreManager.java:195-202 | fails with its message iff users are connected to the store; otherwise drops every instance of the store |
| `DocStoreManagers.DocStoreManager.DeleteStores` | src/org/docma/coreapi/implementation/AbstractDocStoreManager.java:48-57 | removes exactly the instances whose store id matches |
| `DocStoreManagers.DocStoreManager.Connect` | src/org/docma/coreapi/implementation/AbstractDocStoreManager.java:232-237 | increments the serial, creates a session with it as id and appends it to the open sessions |
| `DocStoreManagers.DocStoreManager.DestroySession` | src/org/docma/coreapi/implementation/AbstractDocStoreManager.java:204-207 | removes the session's first occurrence |
| `DocNodes.Put` | src/org/docma/coreapi/DocNode.java:47-48 | writing a value sets that key and leaves every other key as it was; writing no value removes the key |
| `DocNodes.InMode` | src/org/docma/coreapi/DocNode.java:31-44 | a language-dependent value in translation mode is the translated value when there is one, else the original |
| `DocNodes.Attributes` | src/org/docma/coreapi/DocNode.java:45-46 | the attribute map of a language agrees with `getAttribute(name, lang)` for every name |
| `DocNodes.AttributeInMode` | src/org/docma/coreapi/DocNode.java:43 | an attribute read in translation mode falls back to the original-language value only when no translated value exists |
| `DocNodes.AttributeNames` | src/org/docma/coreapi/DocNode.java:42 | the attribute names are exactly those with an original-language value |
| `DocNodes.WithAttribute` | src/org/docma/coreapi/DocNode.java:47-48 | setting an attribute makes it read back in that language, leaves other attributes and other languages alone, and clearing the original value clears the attribute |
| `DocNodes.NoTranslationNoValues` | src/org/docma/coreapi/DocNode.java:52-53 | a node without a translation for a language holds no title, content, content type, file extension or attribute in it |
| `DocNodes.TranslationList` | src/org/docma/coreapi/DocNode.java:52-53 | the translation list holds each language once, and exactly the languages `hasTranslation` accepts |
| `DocNodes.DeleteTranslation` | src/org/docma/coreapi/DocNode.java:54 | deleting a translation removes every value in that language and keeps kind, aliases and all values of other languages |
| `DocNodes.Detached` | src/org/docma/coreapi/DocGroup.java:29-31 | detaching a node removes it from every group's child list and keeps the set of groups |
| `DocNodes.AppendedMeans` | src/org/docma/coreapi/DocGroup.java:29 | after `appendChild` the group lists its previous children without the node, then the node; other groups only lose the node |
| `DocNodes.Removed` | src/org/docma/coreapi/DocGroup.java:31 | removing a node drops its own child-list entry and keeps all others |
| `DocNodes.WithoutDistinct` | src/org/docma/coreapi/DocGroup.java:26 | dropping ids from a duplicate-free child list keeps it duplicate-free |
| `DocNodes.DetachedForest` | src/org/docma/coreapi/DocGroup.java:29-31 | detaching keeps the nodes a forest, and a group's children after detaching are exactly its former children other than the node |
| `DocNodes.Spliced` | src/org/docma/coreapi/DocGroup.java:30 | inserting a new id into a duplicate-free list keeps it duplicate-free and holds exactly the old ids plus the new one |
| `DocNodes.InsertedForest` | src/org/docma/coreapi/DocGroup.java:29-30 | moving a node into a group at any position keeps the nodes a forest |
| `DocNodes.RemovedForest` | src/org/docma/coreapi/DocGroup.java:31 | removing a childless node keeps the remaining nodes a forest |
| `DocNodes.WithoutAbsent` | src/org/docma/coreapi/DocGroup.java:29 | detaching a node a list does not hold leaves the list unchanged |
| `DocNodes.DetachedParentless` | src/org/docma/coreapi/DocGroup.java:29 | detaching a node that has no parent changes no child list |
| `DocNodes.NodeTree.constructor` | src/org/docma/coreapi/DocStoreSession.java:82-89 | the node arena of a version holds the given nodes and child lists, which form a forest |
| `DocNodes.NodeTree.NewNodeId` | src/org/docma/coreapi/DocStoreSession.java:91-100 | a node id handed out by the store is not in use |
| `DocNodes.NodeTree.CreateNode` | src/org/docma/coreapi/DocStoreSession.java:91-100 | creating a node adds a fresh, parentless node of the kind under the given or a new id; an id in use is refused and nothing changes |
| `DocNodes.NodeTree.UpdateNode` | src/org/docma/coreapi/DocNode.java:32-48 | rewriting a node's values changes only that node and keeps the tree shape and the forest invariant |
| `DocNodes.NodeTree.AppendChild` | src/org/docma/coreapi/DocGroup.java:29 | `appendChild` moves the node to the end of the group and keeps the forest invariant |
| `DocNodes.NodeTree.InsertBefore` | src/org/docma/coreapi/DocGroup.java:30 | `insertBefore` moves the node to the position of the reference child and keeps the forest invariant |
| `DocNodes.NodeTree.RemoveChild` | src/org/docma/coreapi/DocGroup.java:31 | `removeChild` deletes a childless node from the arena and from its group and keeps the forest invariant |
| `DocNodes.NodeTree.ParentGroup` | src/org/docma/coreapi/DocNode.java:50 | the parent group found lists the node; when none is found no group lists it |
| `NodeCopy.GetNodePosInArray` | src/org/docma/coreapi/DocStoreUtilities.java:1663-1669 | the result is -1 exactly when the id does not occur from `start` on; otherwise it is the first index from `start` on holding the id |
| `NodeCopy.CreateNodeOfSameType` | src/org/docma/coreapi/DocStoreUtilities.java:187-223 | keep mode reuses the source id or fails when it is taken; try-keep reuses it when free and else takes a fresh id; reassign takes a fresh id; any other mode fails with the mode in the message; a new node is of the source kind and parentless |
| `NodeCopy.RenameAliasesIfNotUnique` | src/org/docma/coreapi/DocStoreUtilities.java:438-469 | every alias is kept when free, else replaced by a name no target node uses, and the alias map records each replacement; when no free name is found the error names a taken alias |
| `NodeCopy.RenamedStep` | src/org/docma/coreapi/DocStoreUtilities.java:447-466 | handling one more alias extends the renaming relation by the kept or replaced alias |
| `NodeCopy.LangValuesCopiedStep` | src/org/docma/coreapi/DocStoreUtilities.java:331-370 | copying the values of the languages `a` and then of `code` copies those of `a` plus `code` |
| `NodeCopy.DifferingValuesCopiedStep` | src/org/docma/coreapi/DocStoreUtilities.java:355-363 | copying the differing content types or extensions of `a` and then of `code` copies those of `a` plus `code` |
| `NodeCopy.AttributesCopiedStep` | src/org/docma/coreapi/DocStoreUtilities.java:339-345 | copying the translated attributes of `a` and then of `code` copies those of `a` plus `code` |
| `NodeCopy.TranslationsCopiedStep` | src/org/docma/coreapi/DocStoreUtilities.java:331-370 | copying the translations `a` and then `code` copies the translations of `a` plus `code` |
| `NodeCopy.CopyOriginalAttributes` | src/org/docma/coreapi/DocStoreUtilities.java:301-305 | every original-language attribute of the source, read in the source's mode, is set on the target; nothing but the attributes changes |
| `NodeCopy.OriginalAttributeStep` | src/org/docma/coreapi/DocStoreUtilities.java:302-304 | one pass sets one listed attribute, which has a value, and extends what is copied by that name |
| `NodeCopy.CopyTranslatedAttributes` | src/org/docma/coreapi/DocStoreUtilities.java:340-345 | every attribute with a value in `code` is set in `code` on the target; nothing but the attributes changes |
| `NodeCopy.WithDifferingCopies` | src/org/docma/coreapi/DocStoreUtilities.java:355-363 | a translated content type or extension is copied exactly when it differs from the original one |
| `NodeCopy.CopyTranslatedContent` | src/org/docma/coreapi/DocStoreUtilities.java:347-365 | the content of `code` is copied, and its content type and file extension only where they differ from the original ones; only content values change |
| `NodeCopy.CopyTranslation` | src/org/docma/coreapi/DocStoreUtilities.java:332-369 | one language's title, attributes and, for content nodes, content are copied as the translation loop prescribes |
| `NodeCopy.NoContentToCopy` | src/org/docma/coreapi/DocStoreUtilities.java:348 | without content in the language, the content part copies nothing and counts as done |
| `NodeCopy.CopyTranslations` | src/org/docma/coreapi/DocStoreUtilities.java:331-370 | every listed language is copied as one pass of the translation loop prescribes |
| `NodeCopy.CopyOriginal` | src/org/docma/coreapi/DocStoreUtilities.java:288-326 | the renamed aliases, the target alias of references, the title, the original attributes and the content, content type and file extension are copied |
| `NodeCopy.SameAttributes` | src/org/docma/coreapi/DocStoreUtilities.java:302-304 | what the attribute copy achieved holds for any node with the same attributes |
| `NodeCopy.CopyNodeValues` | src/org/docma/coreapi/DocStoreUtilities.java:288-370 | the target is the source's original-language values, then its translations (the listed ones, or all when none are listed and the source is in original mode), copied onto the old target |
| `NodeCopy.CopyNodeShallow` | src/org/docma/coreapi/DocStoreUtilities.java:267-372 | a target session in translation mode, or languages given with a source in translation mode, fail and change nothing; otherwise aliases are renamed and the values copied, and only the target node changes |
| `NodeCopy.CopyCountOfAllSnoc` | src/org/docma/coreapi/DocStoreUtilities.java:395-425 | the count of a list of siblings is the sum, over each, of one plus what is copied below a group |
| `NodeCopy.CopyCountStep` | src/org/docma/coreapi/DocStoreUtilities.java:395-425 | the running count of the children loop equals the count of the children handled so far |
| `NodeCopy.CopyCountDeeper` | src/org/docma/coreapi/DocStoreUtilities.java:388-390 | a copy that stays within a depth budget copies the same nodes under a larger budget |
| `NodeCopy.CopyCountOfAllDeeper` | src/org/docma/coreapi/DocStoreUtilities.java:388-390 | the same for a list of siblings |
| `NodeCopy.GrownTrans` | src/org/docma/coreapi/DocStoreUtilities.java:395-425 | two successive rounds of appending below a group compose into one |
| `NodeCopy.GrownBelow` | src/org/docma/coreapi/DocStoreUtilities.java:414-423 | copying below a freshly created child keeps what growing the parent achieved |
| `NodeCopy.KindsMatchStep` | src/org/docma/coreapi/DocStoreUtilities.java:398-407 | one more copy of the next child's kind extends the kind correspondence |
| `NodeCopy.CopiedTreeKept` | src/org/docma/coreapi/DocStoreUtilities.java:395-425 | a copied tree stays one while the arena only grows and only another group's child list changes, and while the node-id map only gains keys |
| `NodeCopy.CopiedSeqKept` | src/org/docma/coreapi/DocStoreUtilities.java:395-425 | the same for a list of copied trees |
| `NodeCopy.IdsMappedTrans` | src/org/docma/coreapi/DocStoreUtilities.java:401-405 | the node-id map entries of two successive copies compose into those of one |
| `NodeCopy.CopiesJoined` | src/org/docma/coreapi/DocStoreUtilities.java:395-424 | the copied trees made so far and the copied tree of the next source together mirror the sources up to that one |
| `NodeCopy.ChildAppended` | src/org/docma/coreapi/DocStoreUtilities.java:408-423 | the same when the next copy was appended below the target group |
| `NodeCopy.CopiedSeqSnoc` | src/org/docma/coreapi/DocStoreUtilities.java:395-424 | a list of copied trees grows by the copied tree of the next source |
| `NodeCopy.CopyNodeChildren` | src/org/docma/coreapi/DocStoreUtilities.java:374-435 | a negative depth fails with "Reached maximum copy depth!"; on success one copy of each source child, of its kind and in order, is appended to the target group and each copy is a copied tree of its child: a new node holding the child's values whose own children are, for a group, the copies of the child's children in order, one level less deep; the count is the recursive copy count; the node-id map keeps its keys, is present exactly when it was given, and every entry it adds or changes maps a source id to a node created by this call that holds a copy of that source node |
| `NodeCopy.CopyNextChild` | src/org/docma/coreapi/DocStoreUtilities.java:395-424 | one pass appends the next child's copied tree behind the copies made so far and extends the count, the kind correspondence and the node-id map entries by it |
| `NodeCopy.CloneIntoGroup` | src/org/docma/coreapi/DocStoreUtilities.java:400-409 | one pass creates a new childless node of the child's kind, records it under the child's id in the node-id map exactly when the ids differ, appends it to the target group and leaves it holding a copy of the child's values |
| `NodeCopy.ShallowCopyNew` | src/org/docma/coreapi/DocStoreUtilities.java:408-409 | the shallow copy onto a freshly created node changes only that node and leaves it holding a copy of the source's values |
| `NodeCopy.CloneMapped` | src/org/docma/coreapi/DocStoreUtilities.java:401-405 | recording a fresh clone under the child's id, when they differ, is a valid node-id map entry, and the child's id is then a key |
| `NodeCopy.GroupCopied` | src/org/docma/coreapi/DocStoreUtilities.java:414-422 | a group child whose clone received the copied trees of its children is itself a copied tree |
| `NodeCopy.LeafCopied` | src/org/docma/coreapi/DocStoreUtilities.java:400-410 | a child that is not a group is a copied tree once cloned, recorded and shallow-copied |
| `NodeCopy.CopyChild` | src/org/docma/coreapi/DocStoreUtilities.java:400-423 | a child is appended as its copied tree (its values copied onto a new node and, for a group, its subtree mirrored in order with one less depth), and the node-id map gains the entries the source records |
| `NodeCopy.CopyBelowClone` | src/org/docma/coreapi/DocStoreUtilities.java:414-422 | below the clone of a group child the copied trees of its children are appended, the clone is kept, and the count and node-id map entries grow accordingly |
| `NodeCopy.CopyNode` | src/org/docma/coreapi/DocStoreUtilities.java:225-265 | a target session in translation mode fails; on success the target's values are a shallow copy of the source, the count is at least one, and when both are groups the appended children are the copied trees of the source's children in order, counted below, with the node-id map entries recorded |
| `NodeCopy.CopyNodeBelow` | src/org/docma/coreapi/DocStoreUtilities.java:256-264 | when both are groups the children are copied below the target as copied trees and counted with the target; otherwise only the target is counted and nothing is appended |
| `NodeCopy.IndexOf` | src/org/docma/coreapi/DocStoreUtilities.java:1663-1669 | the index holds the element and no earlier index does |
| `NodeCopy.Back` | src/org/docma/coreapi/DocStoreUtilities.java:169 | splitting a child list at the insertion point gives the children before it and the children from it on, which start with it |
| `NodeCopy.PositionedTrans` | src/org/docma/coreapi/DocStoreUtilities.java:157-176 | two successive placements between the same neighbours compose into one |
| `NodeCopy.DistinctIndex` | src/org/docma/coreapi/DocStoreUtilities.java:1663-1669 | in a duplicate-free list an id occurs at one index only |
| `NodeCopy.PlaceCopy` | src/org/docma/coreapi/DocStoreUtilities.java:169 | `insertBefore(copy, nodeAfter)` puts the new node between the children before the insertion point and the rest; other groups are unchanged |
| `NodeCopy.CreateAtPosition` | src/org/docma/coreapi/DocStoreUtilities.java:160-169 | one pass creates a new childless node of the kind and places it at the insertion point; on failure nothing changes |
| `NodeCopy.PositionedThenGrown` | src/org/docma/coreapi/DocStoreUtilities.java:170-172 | copying below the placed node keeps it at its place |
| `NodeCopy.CopyToPosition` | src/org/docma/coreapi/DocStoreUtilities.java:159-172 | one source node is copied to a new node placed at the insertion point that is its copied tree (its values, and for a group its subtree mirrored in order), with its subtree counted and the node-id map entries recorded, the source's own id included when the ids differ |
| `NodeCopy.RootCopied` | src/org/docma/coreapi/DocStoreUtilities.java:162-172 | a new node that received the copy of a source node, with its children copied below it, is the copied tree of that node, and the node-id map entries compose |
| `NodeCopy.NewCopyHolds` | src/org/docma/coreapi/DocStoreUtilities.java:162-172 | a fresh node that received a shallow copy holds a copy of its source |
| `NodeCopy.RootTree` | src/org/docma/coreapi/DocStoreUtilities.java:162-172 | the tree half of that: the copied children below the new node make it a copied tree |
| `NodeCopy.CopyNextToPosition` | src/org/docma/coreapi/DocStoreUtilities.java:157-176 | one pass places the next source node's copied tree after the earlier copies and extends the count and the node-id map entries |
| `NodeCopy.OneMoreCopied` | src/org/docma/coreapi/DocStoreUtilities.java:157-176 | one more placed copy of the right kind extends the kind correspondence and the count |
| `NodeCopy.CopyPlaced` | src/org/docma/coreapi/DocStoreUtilities.java:157-176 | the copied trees placed so far and the one placed next together mirror the sources up to that one, with composed node-id map entries |
| `NodeCopy.CopyNodesToPosition` | src/org/docma/coreapi/DocStoreUtilities.java:140-185 | the copies of the source nodes, one per source node and in order, land between the children before `nodeAfter` and `nodeAfter` itself, and each is the copied tree of its source node: a new node holding its values whose subtree mirrors the source's in order; the count is the total of the copied subtrees; the node-id map keeps its keys, is present exactly when it was given, and every entry it adds or changes maps a source id to a node created by this call that holds a copy of that source node |
| `NodeSync.LookupsEqual` | src/org/docma/coreapi/DocStoreUtilities.java:1163-1191 | two maps that agree on every lookup are equal |
| `NodeSync.PutSame` | src/org/docma/coreapi/DocStoreUtilities.java:1179-1181 | writing the value a map already holds changes nothing |
| `NodeSync.AttsEqual` | src/org/docma/coreapi/DocStoreUtilities.java:1163-1191 | two nodes whose attributes read the same in every language hold the same attribute table |
| `NodeSync.SyncAttribute` | src/org/docma/coreapi/DocStoreUtilities.java:1173-1183 | one source attribute is written exactly when the target's value differs from what the source offers; only attributes change |
| `NodeSync.RemoveAttribute` | src/org/docma/coreapi/DocStoreUtilities.java:1186-1189 | a target-only attribute is removed with all its translations; only attributes change |
| `NodeSync.SyncSourceNames` | src/org/docma/coreapi/DocStoreUtilities.java:1173-1183 | after the first loop every source name is in sync, and nothing was written exactly when no name differed |
| `NodeSync.RemoveNames` | src/org/docma/coreapi/DocStoreUtilities.java:1185-1190 | the second loop removes each target-only name and writes once per name |
| `NodeSync.SyncNodeAttributes` | src/org/docma/coreapi/DocStoreUtilities.java:1163-1191 | the target's attributes become those the source offers (in original mode target-only names are dropped), only attributes change, and nothing is written exactly when they were already in sync |
| `NodeSync.FirstPassMeans` | src/org/docma/coreapi/DocStoreUtilities.java:1173-1185 | for a translation the first loop alone completes the sync, and it writes nothing exactly when they were in sync |
| `NodeSync.SecondPassMeans` | src/org/docma/coreapi/DocStoreUtilities.java:1173-1190 | in original mode both loops together complete the sync, and they write nothing exactly when they were in sync |
| `NodeSync.AttributesSyncedMeans` | src/org/docma/coreapi/DocStoreUtilities.java:1163-1191 | an attribute sync changes the target exactly when it was out of sync, and the result is in sync |
| `NodeSync.ContentEquals` | src/org/docma/coreapi/DocStoreUtilities.java:1104-1124 | the two content streams compare equal exactly when the bytes are equal, a missing content counting as a null stream |
| `NodeSync.SyncValue` | src/org/docma/coreapi/DocStoreUtilities.java:1056-1066 | a title is written with the source's value (the original as fallback when converting a translation to original) exactly when the target's differs |
| `NodeSync.SyncContent` | src/org/docma/coreapi/DocStoreUtilities.java:1100-1136 | the content is replaced or deleted exactly when the target's differs from what the source offers |
| `NodeSync.SyncAliases` | src/org/docma/coreapi/DocStoreUtilities.java:1033-1054 | in original mode the aliases, and a reference's target alias, are copied, each written exactly when it differs; a translation sync leaves them |
| `NodeSync.SyncContentFields` | src/org/docma/coreapi/DocStoreUtilities.java:1071-1136 | for a content source the content type, file extension and content are each written exactly when they differ; other kinds keep them |
| `NodeSync.SyncNodeShallowLang` | src/org/docma/coreapi/DocStoreUtilities.java:1004-1157 | kinds that cannot be cast fail with a class-cast error, leaving the target with the writes made before the failing cast (the aliases, and for a content node also the title and attributes); otherwise the target is synced for the language and nothing is written exactly when it was already in sync |
| `NodeSync.WritesBeforeCast` | src/org/docma/coreapi/DocStoreUtilities.java:1032-1073 | before a failing cast the original-language aliases are written; a source reference then fails before its target alias, a source content node after its title and attributes, and no content field is written; no setter call is made exactly when nothing changes |
| `NodeSync.PartlyWritten` | src/org/docma/coreapi/DocStoreUtilities.java:1055-1067 | the title and attribute writes before a failing content cast take no setter call exactly when they change nothing |
| `NodeSync.Assembled` | src/org/docma/coreapi/DocStoreUtilities.java:1004-1157 | the node put together from the synced fields is the language-synced node |
| `NodeSync.WritesMean` | src/org/docma/coreapi/DocStoreUtilities.java:1004-1157 | no setter is called exactly when every compared value already agreed |
| `NodeSync.PutUnchanged` | src/org/docma/coreapi/DocStoreUtilities.java:1061-1063 | a write leaves a map unchanged exactly when it held that value |
| `NodeSync.LangSyncedMeans` | src/org/docma/coreapi/DocStoreUtilities.java:1004-1157 | a language sync changes the target exactly when it was out of sync, and leaves it in sync |
| `NodeSync.HasTranslationMeans` | src/org/docma/coreapi/DocStoreUtilities.java:979 | a node has a translation exactly when it holds some value in that language |
| `NodeSync.SameTranslation` | src/org/docma/coreapi/DocStoreUtilities.java:979 | nodes holding the same values in a language agree on whether they have that translation |
| `NodeSync.InSyncKept` | src/org/docma/coreapi/DocStoreUtilities.java:976-986 | being in sync for a language depends only on what the target holds in it and on its aliases |
| `NodeSync.SameInTrans` | src/org/docma/coreapi/DocStoreUtilities.java:976-986 | holding the same values in a language is transitive |
| `NodeSync.EmptyKept` | src/org/docma/coreapi/DocStoreUtilities.java:979-982 | a language with no values stays empty while its values are unchanged |
| `NodeSync.LangSyncedOnlyIn` | src/org/docma/coreapi/DocStoreUtilities.java:976-986 | syncing a translation changes nothing outside that language |
| `NodeSync.DeletedOnlyIn` | src/org/docma/coreapi/DocStoreUtilities.java:982 | `deleteTranslation` changes nothing outside the language and leaves it empty |
| `NodeSync.ListOf` | src/org/docma/coreapi/DocStoreUtilities.java:971-975 | the language list holds every language of the set, once |
| `NodeSync.SyncTranslation` | src/org/docma/coreapi/DocStoreUtilities.java:976-986 | a language other than the two converted ones is deleted when only the target has it, else synced; the converted ones are skipped; only that language changes |
| `NodeSync.TranslationsStep` | src/org/docma/coreapi/DocStoreUtilities.java:976-986 | one more pass extends what the loop has handled |
| `NodeSync.SyncOriginal` | src/org/docma/coreapi/DocStoreUtilities.java:955-969 | kinds that cannot be cast fail after the writes that precede the failing cast; otherwise the original language is synced from the source's original (or its `transAsOrig` translation), and the `origAsTrans` translation from the source's original |
| `NodeSync.OriginalSynced` | src/org/docma/coreapi/DocStoreUtilities.java:955-962 | the original-language sync leaves the original in sync, keeps the kind and changes the target exactly when it was out of sync |
| `NodeSync.OrigAsTransSynced` | src/org/docma/coreapi/DocStoreUtilities.java:964-968 | syncing the original into the `origAsTrans` translation keeps the original in sync and makes that translation in sync |
| `NodeSync.ValuesKeptOnlyIn` | src/org/docma/coreapi/DocStoreUtilities.java:964-968 | a change confined to one language keeps what the original sync preserved |
| `NodeSync.SyncTranslations` | src/org/docma/coreapi/DocStoreUtilities.java:976-986 | the loop handles every listed language, keeps the original syncs, and changes no unlisted translation |
| `NodeSync.SyncNodeShallow` | src/org/docma/coreapi/DocStoreUtilities.java:940-1002 | kinds that cannot be cast fail after the writes that precede the failing cast; otherwise the original is synced, every language of the list (or of both nodes when none is given) is handled, unlisted translations are untouched, and nothing written means the target is unchanged |
| `TreeSync.WithoutConcat` | src/org/docma/coreapi/DocStoreUtilities.java:912-914 | dropping ids from a concatenation drops them from each part |
| `TreeSync.WithoutAt` | src/org/docma/coreapi/DocStoreUtilities.java:830-831 | taking the element at a position out of a duplicate-free list closes the gap |
| `TreeSync.DetachedList` | src/org/docma/coreapi/DocStoreUtilities.java:913 | detaching a node takes it out of each child list and keeps the rest in order |
| `TreeSync.ContentDeleted` | src/org/docma/coreapi/DocStoreUtilities.java:903-904 | `deleteContent()` empties a content node's original-language content and keeps everything else; other kinds are unchanged |
| `TreeSync.MovingStep` | src/org/docma/coreapi/DocStoreUtilities.java:912-916 | one more moved child extends the moving relation |
| `TreeSync.ListedByDelOnly` | src/org/docma/coreapi/DocStoreUtilities.java:911-912 | a child of the deleted group occurs once in its list and in no other group |
| `TreeSync.MovedFromDel` | src/org/docma/coreapi/DocStoreUtilities.java:913 | removing the next child from the deleted group leaves the children after it |
| `TreeSync.MovedToRepl` | src/org/docma/coreapi/DocStoreUtilities.java:914 | appending that child to the replacement group extends the moved part by one |
| `TreeSync.MoveChildren` | src/org/docma/coreapi/DocStoreUtilities.java:906-917 | every child of the deleted group moves, in order, to the end of the replacement group, and the count is their number |
| `TreeSync.DeleteSingleNode` | src/org/docma/coreapi/DocStoreUtilities.java:898-938 | a content node loses its content, a group's children are appended to the replacement group, the node is removed from its parent when it has one, the result counts the moved children, and every other child list only loses the node |
| `TreeSync.NodesAfterDelete` | src/org/docma/coreapi/DocStoreUtilities.java:903-930 | the node set afterwards is the old one without the node when it had a parent, else with its content emptied |
| `TreeSync.MovedParentless` | src/org/docma/coreapi/DocStoreUtilities.java:920-930 | moving the children does not change whether the deleted node has a parent |
| `TreeSync.Deleted` | src/org/docma/coreapi/DocStoreUtilities.java:920-930 | after the removal the node lists no children, the replacement group holds its old children and the moved ones without the node, and other groups only lose the node |
| `TreeSync.KindsKeptTrans` | src/org/docma/coreapi/DocStoreUtilities.java:788-822 | keeping every matching kind composes over successive steps |
| `TreeSync.RebuiltTrans` | src/org/docma/coreapi/DocStoreUtilities.java:788-822 | rebuilding the source children composes over successive steps |
| `TreeSync.MismatchDropped` | src/org/docma/coreapi/DocStoreUtilities.java:794-804 | deleting a target node of a different kind keeps all matching kinds, and once it is gone the node counts as rebuilt |
| `TreeSync.CreatedRebuilt` | src/org/docma/coreapi/DocStoreUtilities.java:805-808 | creating a missing child under the source id gives it the source kind and keeps every other node |
| `TreeSync.PrefixAfterDelete` | src/org/docma/coreapi/DocStoreUtilities.java:800-801 | removing a node that is not in the matched front keeps the front |
| `TreeSync.MoveToPosition` | src/org/docma/coreapi/DocStoreUtilities.java:814-821 | `insertBefore` at the position, or `appendChild` past the end, puts the node right after the matched front; other groups only lose the node |
| `TreeSync.DetachedPrefix` | src/org/docma/coreapi/DocStoreUtilities.java:814-821 | detaching a node that is not in the front keeps the front and the child at the position |
| `TreeSync.PlacedAt` | src/org/docma/coreapi/DocStoreUtilities.java:816-818 | inserting at the position extends the front by the node and other groups only lose it |
| `TreeSync.NotInFront` | src/org/docma/coreapi/DocStoreUtilities.java:792 | a source child past the matched front is not among the matched children |
| `TreeSync.ChildIsNode` | src/org/docma/coreapi/DocStoreUtilities.java:785 | every listed child is a node of the store |
| `TreeSync.FindOrRebuild` | src/org/docma/coreapi/DocStoreUtilities.java:789-808 | the child is searched from the position on; a node of a different kind is deleted and a missing one is created under the source id; a failed creation reports the taken id; a position equal to the pass index means the child is already in place; only the group and the source children change, and other lists only lose source children |
| `TreeSync.PlaceChild` | src/org/docma/coreapi/DocStoreUtilities.java:788-822 | one pass extends the matched front by the next source child, of the source kind, changing only the group and the source children |
| `TreeSync.PrefixExtended` | src/org/docma/coreapi/DocStoreUtilities.java:814-821 | a front extended by the source child of the right kind is matched one further |
| `TreeSync.OrderChildren` | src/org/docma/coreapi/DocStoreUtilities.java:788-822 | afterwards the first children of the target group are the source children, in order and of the same kinds, created where missing; a failure names a taken id; other nodes are untouched and other lists only lose source children |
| `TreeSync.RemoveExtraChildren` | src/org/docma/coreapi/DocStoreUtilities.java:825-838 | every child past the source children whose id the source does not know is deleted, the front is kept, the result says whether anything was removed, and no other node or list changes except for losing those ids |
| `TreeSync.RemovalStep` | src/org/docma/coreapi/DocStoreUtilities.java:827-837 | one turn deletes an unknown child or moves on, always makes progress and only drops ids the source does not know |
| `TreeSync.RemoveChildAt` | src/org/docma/coreapi/DocStoreUtilities.java:829-832 | deleting an unknown child keeps the children before it, shrinks the node set and drops only that id elsewhere |
| `TreeSync.PrunedTrans` | src/org/docma/coreapi/DocStoreUtilities.java:825-838 | pruning composes over successive deletions |
| `TreeSync.FrontKept` | src/org/docma/coreapi/DocStoreUtilities.java:827-837 | a scan stays valid over a list that keeps the scanned front |
| `TreeSync.ThinnedTrans` | src/org/docma/coreapi/DocStoreUtilities.java:825-838 | removing ids from a child list, one after another, composes: what remains is the list with the removed ids taken out, the rest in order |
| `TreeSync.ThinnedFront` | src/org/docma/coreapi/DocStoreUtilities.java:825-838 | a front none of whose ids may be removed survives a thinning unchanged, and the rest only loses ids |
| `TreeSync.ThinnedElems` | src/org/docma/coreapi/DocStoreUtilities.java:825-838 | thinning a child list adds no id to it |
| `TreeSync.ConfinedTrans` | src/org/docma/coreapi/DocStoreUtilities.java:756-896 | two changes confined to the same nodes and the same removable ids compose |
| `TreeSync.ConfinedMore` | src/org/docma/coreapi/DocStoreUtilities.java:756-896 | a change confined to fewer nodes and removable ids is confined to more |
| `TreeSync.DeleteConfined` | src/org/docma/coreapi/DocStoreUtilities.java:898-938 | deleting a node of the set, or one the source does not know, with its children moved into a group of the set, stays in the frame |
| `TreeSync.MovedConfined` | src/org/docma/coreapi/DocStoreUtilities.java:814-821 | moving a removable id into a group of the set stays in the frame |
| `TreeSync.DropMismatched` | src/org/docma/coreapi/DocStoreUtilities.java:794-804 | deleting a target node whose kind differs from the source child keeps every matching kind and the matched front, takes the child out of the group and stays within the group and the source children |
| `TreeSync.CreateMissing` | src/org/docma/coreapi/DocStoreUtilities.java:805-808 | creating a missing child under the source id gives it the source kind and changes no list; a taken id fails with its message and changes nothing |
| `TreeSync.Rebuild` | src/org/docma/coreapi/DocStoreUtilities.java:794-808 | a child of the wrong kind is deleted and then, like a missing one, created with the source kind, keeping the front and every matching kind; a failed creation names the id |
| `SyncRecursive.LeafSize` | src/org/docma/coreapi/DocStoreUtilities.java:767-781 | a node that is not a group counts one |
| `SyncRecursive.SizeOfAllBound` | src/org/docma/coreapi/DocStoreUtilities.java:854-869 | a list of subtrees counts at least one node per subtree |
| `SyncRecursive.SizeOfAllStep` | src/org/docma/coreapi/DocStoreUtilities.java:860 | the count of the child loop grows by each child's subtree |
| `SyncRecursive.ChildrenRanked` | src/org/docma/coreapi/DocStoreUtilities.java:784 | source children are nodes ranked below their group, and no group is its own child |
| `SyncRecursive.RebuiltKindsKept` | src/org/docma/coreapi/DocStoreUtilities.java:788-822 | rebuilding the source children keeps every matching kind |
| `SyncRecursive.PrunedKindsKept` | src/org/docma/coreapi/DocStoreUtilities.java:825-838 | pruning keeps every matching kind |
| `SyncRecursive.CheckCanceledByUser` | src/org/docma/coreapi/DocStoreUtilities.java:471-479 | the check fails, with the cancel message, exactly when a progress object is given and its cancel flag is set |
| `SyncRecursive.ReportStep` | src/org/docma/coreapi/DocStoreUtilities.java:865-868 | a finished step is counted while steps remain, and the check then fails exactly when the cancel flag is set |
| `SyncRecursive.PrefixChain` | src/org/docma/coreapi/DocStoreUtilities.java:854-859 | the children kept by the removal loop start with the source children, so the ID-mismatch error cannot arise |
| `SyncRecursive.ChildBelow` | src/org/docma/coreapi/DocStoreUtilities.java:784 | a child's subtree lies below its group |
| `SyncRecursive.NotBelowItself` | src/org/docma/coreapi/DocStoreUtilities.java:784 | no node lies below itself in the source tree |
| `SyncRecursive.SubIdsTrans` | src/org/docma/coreapi/DocStoreUtilities.java:784 | a subtree of a node inside a subtree lies inside it |
| `SyncRecursive.Nested` | src/org/docma/coreapi/DocStoreUtilities.java:784 | two source subtrees that share a node are nested |
| `SyncRecursive.SiblingsApart` | src/org/docma/coreapi/DocStoreUtilities.java:784 | the subtrees of two different children of a group share no node, so one child's sync cannot touch another's |
| `SyncRecursive.ChildrenBelow` | src/org/docma/coreapi/DocStoreUtilities.java:784 | the children of a group lie below it |
| `SyncRecursive.ChildDeep` | src/org/docma/coreapi/DocStoreUtilities.java:784 | what lies below a child lies at least two levels below its group |
| `SyncRecursive.TreeSyncedKept` | src/org/docma/coreapi/DocStoreUtilities.java:756-896 | a synced subtree stays synced across a change confined to nodes and removable ids outside it |
| `SyncRecursive.LevelKept` | src/org/docma/coreapi/DocStoreUtilities.java:854-869 | a synced child level stays synced across such a change |
| `SyncRecursive.AllKept` | src/org/docma/coreapi/DocStoreUtilities.java:854-869 | synced children stay synced across such a change |
| `SyncRecursive.SourceFrontKept` | src/org/docma/coreapi/DocStoreUtilities.java:880-882 | thinning a child list by ids outside the source children keeps them in front and keeps every later child source-known |
| `SyncRecursive.ChildSynced` | src/org/docma/coreapi/DocStoreUtilities.java:854-869 | a child synced by a change confined to its own subtree joins the children synced before it, which that change keeps |
| `SyncRecursive.ChildConfined` | src/org/docma/coreapi/DocStoreUtilities.java:854-869 | a change confined to one child's subtree is confined to the group's deeper levels |
| `SyncRecursive.LevelReached` | src/org/docma/coreapi/DocStoreUtilities.java:841-882 | reconciled children whose subtrees are then each synced, by changes that drop ids only two levels down, make the group's level synced |
| `SyncRecursive.SyncNodeRecursive` | src/org/docma/coreapi/DocStoreUtilities.java:756-896 | a cancelled call fails before changing anything; on success a target node the source knows outside the subtree is left with the whole subtree synced (its own content, then at each group level the source children first, in source order, each synced onto the target node of its id, and only source-known children after them); the change is confined to the target node and the source subtree, dropping only ids below it; matching kinds stay matched, the count is the source subtree size for a target group and one otherwise, the transaction state is restored and the progress level is kept |
| `SyncRecursive.SyncNodeBody` | src/org/docma/coreapi/DocStoreUtilities.java:777-883 | inside a running transaction the node is synced and, for a target group, its children too, with the same count; on success an anchored target node ends with the subtree synced, and the change stays within the node and the source subtree |
| `SyncRecursive.SyncGroup` | src/org/docma/coreapi/DocStoreUtilities.java:781-882 | on success the target group keeps its own content and its children level is synced: the source children in front, in order, each with its subtree synced, and only source-known ids after them; the count is the source subtree size; nothing outside the group and the source subtree changes |
| `SyncRecursive.SyncOwnNode` | src/org/docma/coreapi/DocStoreUtilities.java:778 | the node itself fails exactly when the kinds cannot be cast, and is then left with the writes made before the cast; only it changes and it keeps its kind; on success it is in sync with the source |
| `SyncRecursive.OwnNodeKindsKept` | src/org/docma/coreapi/DocStoreUtilities.java:778 | rewriting one node without changing its kind keeps every kind |
| `SyncRecursive.ReconcileChildren` | src/org/docma/coreapi/DocStoreUtilities.java:784-844 | afterwards the target group's children start with the source children, each of the source kind, and every later child is known to the source; the group node itself is unchanged and only the source children and the group change |
| `SyncRecursive.MatchedKinds` | src/org/docma/coreapi/DocStoreUtilities.java:788-822 | once all source children are matched, each is a target node of the source kind |
| `SyncRecursive.PruneAndCommit` | src/org/docma/coreapi/DocStoreUtilities.java:825-844 | the removal loop keeps the matched front, leaves only children the source knows after it and changes only the group's own list |
| `SyncRecursive.SyncLevel` | src/org/docma/coreapi/DocStoreUtilities.java:848-879 | on success every source child has its subtree synced onto the target node of its id; the count is the sum of the children's subtree sizes; only nodes below the source group change and only ids two or more levels down are dropped from lists; the progress level is kept |
| `SyncRecursive.SyncChildrenAndCommit` | src/org/docma/coreapi/DocStoreUtilities.java:854-874 | the child loop, then a commit on a database target: each source child synced with its subtree, the count the sum of the subtree sizes, changes confined below the source group |
| `SyncRecursive.SyncChildren` | src/org/docma/coreapi/DocStoreUtilities.java:854-869 | every source child ends with its subtree synced onto the target node of its id, each later pass keeping what the earlier ones synced; the count is the sum of their subtree sizes; changes stay below the source group and drop only ids two or more levels down |
| `SyncRecursive.VisitChild` | src/org/docma/coreapi/DocStoreUtilities.java:855-868 | one pass syncs the next child's subtree and adds it to the children synced before it, within the frame of the group's deeper levels; it counts the subtree and, at the first level, reports a step and checks cancellation |
| `SyncRecursive.SyncOneChild` | src/org/docma/coreapi/DocStoreUtilities.java:855-864 | the child's subtree is synced onto the target node of its id, changing only that subtree and dropping only ids below the child, and is counted |
| `VersionCopy.DerivedOnesSnoc` | src/org/docma/coreapi/DocStoreUtilities.java:128-138 | filtering a list with one more version appends it exactly when its base is the one asked for |
| `VersionCopy.GetRootVersions` | src/org/docma/coreapi/DocStoreUtilities.java:128-138 | the root versions are exactly the listed versions without a base, in list order |
| `VersionCopy.BaseRanksAbove` | src/org/docma/coreapi/DocStoreUtilities.java:583-585 | a version with a base ranks below its base |
| `VersionCopy.AtOrAboveShrinks` | src/org/docma/coreapi/DocStoreUtilities.java:583-585 | a higher rank has fewer versions at or above it |
| `VersionCopy.BasesMeasureDrops` | src/org/docma/coreapi/DocStoreUtilities.java:583-585 | one step down the base links lowers the measure, so the walk ends |
| `VersionCopy.FindTargetBase` | src/org/docma/coreapi/DocStoreUtilities.java:578-585 | the base found is the nearest version along the source's base links that the target lists, or none |
| `VersionCopy.CreationDate` | src/org/docma/coreapi/implementation/AbstractDocStoreSession.java:316-324 | a creation date is present only when the property is set and parses as a Java long |
| `VersionCopy.CreationDateReadsBack` | src/org/docma/coreapi/implementation/AbstractDocStoreSession.java:326-331 | a creation date written reads back and no other property of the version changes |
| `VersionCopy.CreatedVersion` | src/org/docma/coreapi/DocStoreSession.java:66 | a created version is listed last, derives from its base and starts with the base's properties |
| `VersionCopy.CreateVersion` | src/org/docma/coreapi/implementation/AbstractDocStoreSession.java:143-154 | a listed id is refused; otherwise the creation checks decide, and on success the store holds the new version and nothing else of the session changes |
| `VersionCopy.SetVersionProperties` | src/org/docma/coreapi/DocStoreSession.java:58 | the backend becomes the old one with the named properties written |
| `VersionCopy.PropertyNames` | src/org/docma/coreapi/DocStoreSession.java:59 | the names listed are exactly those with a value |
| `VersionCopy.WithVersionPropsReads` | src/org/docma/coreapi/DocStoreSession.java:58 | a write of distinct names reads back what it wrote and keeps every other property |
| `VersionCopy.CopyVersionProperties` | src/org/docma/coreapi/DocStoreUtilities.java:592-609 | every property of the target version becomes the source's, a name only the target had being cleared, and nothing outside the version's properties changes |
| `VersionCopy.CreateTargetVersion` | src/org/docma/coreapi/DocStoreUtilities.java:566-609 | both sessions leave translation mode; a missing creation date fails; a listed id is refused; on success the version is created on the nearest listed base with the source's properties |
| `VersionCopy.LanguagesOfAllStep` | src/org/docma/coreapi/DocStoreUtilities.java:1653-1659 | the languages of one more child add to those of the children before it |
| `VersionCopy.LeafLanguages` | src/org/docma/coreapi/DocStoreUtilities.java:1657 | a node that is not a group contributes only its own translations |
| `VersionCopy.CollectLanguages` | src/org/docma/coreapi/DocStoreUtilities.java:1649-1660 | the set grows by exactly the translations found in the group's subtree |
| `VersionCopy.CollectChildLanguages` | src/org/docma/coreapi/DocStoreUtilities.java:1654-1658 | one child adds exactly the translations of its subtree |
| `VersionCopy.TranslationsToCopy` | src/org/docma/coreapi/DocStoreUtilities.java:625-643 | a pending `transAsOrig` translation fails with its message; otherwise the result holds exactly the requested languages other than the two converted ones whose state is not pending |
| `VersionCopy.StateAndDateOnlyTrans` | src/org/docma/coreapi/DocStoreUtilities.java:711-754 | changes confined to a language's state and release date compose |
| `VersionCopy.WriteStateOnly` | src/org/docma/coreapi/implementation/AbstractDocStoreSession.java:439-447 | a state change writes only that language's state and release date |
| `VersionCopy.DateWriteOnly` | src/org/docma/coreapi/implementation/AbstractDocStoreSession.java:471-481 | a release-date write under the key as given keeps every other property and the state of that language |
| `VersionCopy.CopyState` | src/org/docma/coreapi/DocStoreUtilities.java:735-744 | the state is written when it is not a pending translation and differs; the write fails exactly when the state change is refused, and afterwards the target's state matches the source's |
| `VersionCopy.CopyReleaseDate` | src/org/docma/coreapi/DocStoreUtilities.java:745-749 | a source release date is copied so that it reads back; without one the target is unchanged; the state is kept |
| `VersionCopy.SetMode` | src/org/docma/coreapi/implementation/AbstractDocStoreSession.java:296-309 | entering or leaving translation mode sets the mode and changes nothing else |
| `VersionCopy.CopyVersionStateAndReleaseDate` | src/org/docma/coreapi/DocStoreUtilities.java:711-754 | both sessions end in original mode; only the target language's state and date change; the copy fails exactly when a needed state change is refused; otherwise the state matches and a source release date is copied |
| `VersionCopy.TranslationKeysDiffer` | src/org/docma/coreapi/implementation/AbstractDocStoreSession.java:440-447 | the state and both date keys of a translation differ from the original's |
| `VersionCopy.TranslationKeepsOriginal` | src/org/docma/coreapi/DocStoreUtilities.java:691-698 | a change confined to a translation keeps the original's state and release date |
| `VersionCopy.OnlyVersionPropsChangedTrans` | src/org/docma/coreapi/DocStoreUtilities.java:687-698 | changes confined to the version's properties compose |
| `VersionCopy.OtherTranslationKept` | src/org/docma/coreapi/DocStoreUtilities.java:691-698 | a change confined to one translation keeps the state and release date of every translation that differs from it ignoring case |
| `VersionCopy.CopyVersionStates` | src/org/docma/coreapi/DocStoreUtilities.java:687-698 | the original's state and date, then those of each translation and of `origAsTrans`, are copied; a refused original state fails; on success the original state and release date match the source, each translation that no other copied language equals ignoring case reads the source's state (unless pending) and release date, and so does `origAsTrans` for the original's |
| `VersionCopy.DistinctCounts` | src/org/docma/coreapi/DocStoreUtilities.java:619-624 | a list without repeats holds each element at most once |
| `VersionCopy.RearrangedDistinct` | src/org/docma/coreapi/DocStoreUtilities.java:619-624 | a rearrangement of a list without repeats has none |
| `VersionCopy.SelectTranslations` | src/org/docma/coreapi/DocStoreUtilities.java:619-644 | the translation set is sorted and without repeats and holds exactly the requested (or found) languages other than the converted ones and the pending ones; a pending `transAsOrig` fails |
| `VersionCopy.AddedRenditionReadsBack` | src/org/docma/coreapi/DocStoreUtilities.java:671-675 | a successful round keeps the rendition names valid, lists the new one and keeps every existing rendition |
| `VersionCopy.CopiedRenditionsReadBack` | src/org/docma/coreapi/DocStoreUtilities.java:668-680 | after a successful copy every source rendition is listed in the target and existing ones are unchanged |
| `VersionCopy.AddRendition` | src/org/docma/coreapi/DocStoreUtilities.java:672-674 | a rendition the target lacks is added; one it has is skipped; only store properties change |
| `VersionCopy.AddRenditions` | src/org/docma/coreapi/DocStoreUtilities.java:671-675 | the loop adds every missing rendition or stops at the first failure |
| `VersionCopy.CopyImageRenditions` | src/org/docma/coreapi/DocStoreUtilities.java:668-680 | the source renditions are added to the target inside one transaction, committed on success and rolled back on a caught failure |
| `VersionCopy.SyncAndCopyStates` | src/org/docma/coreapi/DocStoreUtilities.java:646-701 | the tree is synced with the subtree count, the renditions copied and the states and release dates of the original, of each translation and of `origAsTrans` copied as `CopyVersionStates` states; the version list is untouched; a target root the source knows outside the synced subtree ends with that subtree synced as `SyncNodeRecursive` states |
| `VersionCopy.CopyVersion` | src/org/docma/coreapi/DocStoreUtilities.java:555-709 | on success the version is listed last in the target on the nearest listed base, the statistics count the synced nodes and the sorted copied translations, the original state and release date match the source, and each copied translation and `origAsTrans` read the source's state and release date as `CopyVersionStates` states; a pending `transAsOrig` fails; a target root the source knows outside the synced subtree ends with that subtree synced as `SyncNodeRecursive` states |
| `VersionCopy.CopyVersionContent` | src/org/docma/coreapi/DocStoreUtilities.java:612-709 | after creation: sync, renditions and states, with the same statistics and the same state and release-date guarantees for the original, every copied translation and `origAsTrans`; a target root the source knows outside the synced subtree ends with that subtree synced as `SyncNodeRecursive` states |
| `VersionVerify.OpenWork` | src/org/docma/coreapi/DocStoreUtilities.java:1271 | `startWork(steps)` opens one more progress level and keeps the cancel flag |
| `VersionVerify.CloseWork` | src/org/docma/coreapi/DocStoreUtilities.java:1291 | `finishWork()` closes the level opened last and keeps the step counters |
| `VersionVerify.Step` | src/org/docma/coreapi/DocStoreUtilities.java:1278-1283 | `stepFinished()` keeps the progress object well formed |
| `VersionVerify.Alias` | src/org/docma/coreapi/DocNode.java:35-36 | `getAlias()` is present exactly when the node has aliases, and is one of them |
| `VersionVerify.AttributesInMode` | src/org/docma/coreapi/DocNode.java:45 | the attribute map in a mode agrees with reading each attribute in that mode |
| `VersionVerify.MapErrorsZero` | src/org/docma/coreapi/DocStoreUtilities.java:1419-1456 | comparing two attribute or property maps reports no error exactly when they agree (a source-only name counting only when non-empty) |
| `VersionVerify.DifferingStep` | src/org/docma/coreapi/DocStoreUtilities.java:1428-1444 | one more target name adds one differing name exactly when the source value differs |
| `VersionVerify.NonEmptyStep` | src/org/docma/coreapi/DocStoreUtilities.java:1446-1455 | one more source-only name adds one exactly when its value is non-empty |
| `VersionVerify.CountDiffering` | src/org/docma/coreapi/DocStoreUtilities.java:1428-1444 | the first loop adds one error per target entry the source does not hold with the same value |
| `VersionVerify.CountNonEmpty` | src/org/docma/coreapi/DocStoreUtilities.java:1446-1455 | the second loop adds one error per non-empty source entry the target lacks |
| `VersionVerify.VerifyNodeAttribs` | src/org/docma/coreapi/DocStoreUtilities.java:1419-1456 | the error count grows by the map comparison's errors, and stays the same exactly when the attribute maps agree |
| `VersionVerify.NodeErrorsZero` | src/org/docma/coreapi/DocStoreUtilities.java:1513-1603 | a node reports no error exactly when id, type and aliases match and, in extended mode, title, attributes and content fields match |
| `VersionVerify.ExtendedErrorsZero` | src/org/docma/coreapi/DocStoreUtilities.java:1560-1603 | the extended checks report no error exactly when title, attributes and content fields match |
| `VersionVerify.CheckNode` | src/org/docma/coreapi/DocStoreUtilities.java:1513-1603 | the checks on the node itself add exactly its node errors |
| `VersionVerify.CheckIdentity` | src/org/docma/coreapi/DocStoreUtilities.java:1518-1558 | the id, type, alias and aliases checks add one error each that fails |
| `VersionVerify.CheckExtended` | src/org/docma/coreapi/DocStoreUtilities.java:1560-1603 | the title, attribute and content checks add one error each that fails |
| `VersionVerify.CheckContent` | src/org/docma/coreapi/DocStoreUtilities.java:1576-1603 | for two content nodes the length, type and extension checks add one error each that fails |
| `VersionVerify.CheckSelf` | src/org/docma/coreapi/DocStoreUtilities.java:1505-1632 | a tree verified against itself reports no error and visits each node once |
| `VersionVerify.ChildChecksSelf` | src/org/docma/coreapi/DocStoreUtilities.java:1625-1629 | the same for the first children of a group verified against itself |
| `VersionVerify.CheckVisitsAtMostSource` | src/org/docma/coreapi/DocStoreUtilities.java:1505-1632 | a walk visits at least the node itself and never more nodes than the source subtree holds |
| `VersionVerify.ChildChecksAtMostSource` | src/org/docma/coreapi/DocStoreUtilities.java:1618-1629 | the child walk visits no more nodes than the source children's subtrees hold |
| `VersionVerify.SizeOfAllPrefix` | src/org/docma/coreapi/DocStoreUtilities.java:1624-1625 | the subtrees of the first children are no larger than those of all children |
| `VersionVerify.VerifyVersionNode` | src/org/docma/coreapi/DocStoreUtilities.java:1505-1632 | a set cancel flag fails with the cancel message and adds no error; otherwise the count grows by the nodes visited and the errors by those the walk finds |
| `VersionVerify.VerifyChildren` | src/org/docma/coreapi/DocStoreUtilities.java:1613-1630 | children are paired in order up to the shorter list, and counts and errors add up over the pairs |
| `VersionVerify.VersionProps` | src/org/docma/coreapi/DocStoreUtilities.java:1314-1315 | the property map of a version agrees with reading each property |
| `VersionVerify.TargetComparedWithItselfAsWritten` | src/org/docma/coreapi/DocStoreUtilities.java:1315-1342 | as written, when the target reads the version's properties alike under both store ids, no property error is reported |
| `VersionVerify.OtherStoreAllReportedAsWritten` | src/org/docma/coreapi/DocStoreUtilities.java:1319-1330 | as written, a target backend without the source store's version reports every target property as an error |
| `VersionVerify.PropertiesUncheckedAsWritten` | src/org/docma/coreapi/DocStoreUtilities.java:1305-1342 | as written, the source values are read through the target session, so a copy under the same store id never reports a property error |
| `VersionVerify.DifferingPropertyMissedAsWritten` | src/org/docma/coreapi/DocStoreUtilities.java:1321-1334 | a target property that differs from the source is one error when the source is read, and none as written |
| `VersionVerify.CopiedPropertiesVerify` | src/org/docma/coreapi/DocStoreUtilities.java:1305-1342 | version properties read back unchanged report no error |
| `VersionVerify.VerifyVersionProperties` | src/org/docma/coreapi/DocStoreUtilities.java:1305-1342 | the error count grows by one per target property whose value differs from the one the target session reads under the source store id, and per source property name the target lacks whose value so read is non-empty |
| `VersionVerify.VerifyTree` | src/org/docma/coreapi/DocStoreUtilities.java:1362-1378 | the node walk runs inside one progress level, closed however it ends; cancelling fails, otherwise the walk's nodes and errors are reported |
| `VersionVerify.VerifyVersionLang` | src/org/docma/coreapi/DocStoreUtilities.java:1344-1387 | both sessions end in original mode and no store changes; cancelling fails; otherwise the errors grow by the language's node errors and by the property errors as `verifyVersionProperties` is written |
| `VersionVerify.VerifyLangContent` | src/org/docma/coreapi/DocStoreUtilities.java:1362-1380 | the node walk, then the property check unless cancelled, add the language's errors |
| `VersionVerify.TranslationErrorsStep` | src/org/docma/coreapi/DocStoreUtilities.java:1280-1284 | the errors of one more translation add to those of the translations before it |
| `VersionVerify.VerifyTranslations` | src/org/docma/coreapi/DocStoreUtilities.java:1280-1284 | each copied translation is verified and its errors added |
| `VersionVerify.VerifyVersion` | src/org/docma/coreapi/DocStoreUtilities.java:1248-1303 | both sessions end in original mode and no store changes; a set cancel flag leaves the statistics alone; otherwise the error count grows by the original language's and every copied translation's errors |
| `VersionVerify.ExactCopyVerifies` | src/org/docma/coreapi/DocStoreUtilities.java:1248-1387 | a version tree verified against an exact copy of itself reports no error in any language, provided the target reads the version's properties alike under both store ids |
| `AliasRename.IntTextHasNoSeparator` | src/org/docma/coreapi/DefaultAliasRenameStrategy.java:34-35 | the decimal text of a number never holds the '_' separator |
| `AliasRename.LastIndexBeforeTail` | src/org/docma/coreapi/DefaultAliasRenameStrategy.java:27 | `lastIndexOf` finds the separator placed just before a tail without it |
| `CssParser.DeclarationStep` | src/org/docma/util/CSSParser.java:37-52 | putting the declaration read and then the rest equals putting every declaration from the start |
| `CssParser.SpansAtDeclaration` | src/org/docma/util/CSSParser.java:37-52 | without a colon there are no more declarations; with one, the declaration runs from the name start to the value end and the rest follows |
| `CssParser.DeclarationRead` | src/org/docma/util/CSSParser.java:37-52 | the declaration read at a name start is the first span, with the trimmed name and value, and the rest follow from its end |
| `CssParser.EntryAt` | src/org/docma/util/CSSParser.java:44-46 | a declaration's name and value are the trimmed texts before and after its colon |
| `DocEvents.Values` | src/org/docma/coreapi/implementation/EventQueueUtil.java:27-72 | the values of the queued event objects, one per object, in queue order |
| `DocEvents.CompressCons` | src/org/docma/coreapi/implementation/EventQueueUtil.java:30-45 | compressing an event put in front of a queue is one step on the compressed rest |
| `DocEvents.StepAppend` | src/org/docma/coreapi/implementation/EventQueueUtil.java:30-45 | a step on a non-empty front part does not reach into what follows it |
| `DocEvents.CountChangedAppend` | src/org/docma/coreapi/implementation/EventQueueUtil.java:49-62 | the number of NODES_CHANGED events of a concatenation is the sum over its parts |
| `DocEvents.CountChangedSnoc` | src/org/docma/coreapi/implementation/EventQueueUtil.java:51-61 | one more event adds one exactly when it is a NODES_CHANGED event |
| `DocEvents.CountChangedMonotone` | src/org/docma/coreapi/implementation/EventQueueUtil.java:51-61 | a prefix of the queue counts no more NODES_CHANGED events than the queue |
| `DocmaUtil.JoinCons` | src/org/docma/util/DocmaUtil.java:100-122 | joining an element in front of a non-empty list puts it and the separator before the rest |
| `DocmaUtil.ReadDigitsAndUnit` | src/org/docma/util/DocmaUtil.java:124-129 | the text "digits unit" reads back as its digits and its unit |
| `ListenerLists.FirstIndex` | src/org/docma/coreapi/implementation/AbstractLockManager.java:87-96 | the index of the first identical entry, or the length when there is none |
| `ListenerLists.DropAtUnique` | src/org/docma/coreapi/implementation/AbstractLockManager.java:87-96 | dropping one entry of a duplicate-free list removes that entry and no other |
| `LockManagers.LockManager.constructor` | src/org/docma/coreapi/implementation/AbstractLockManager.java:28 | a new lock manager has no listeners |
| `ProgressCallbacks.Weight` | src/org/docma/coreapi/implementation/DefaultProgressCallback.java:243-256 | the weight of a step at each level is never negative |
| `ProgressCallbacks.Round` | src/org/docma/coreapi/implementation/DefaultProgressCallback.java:262 | `Math.round`: the nearest integer, halves rounded up |
| `ProgressCallbacks.PercentAtFirstLevel` | src/org/docma/coreapi/implementation/DefaultProgressCallback.java:243-244 | with only the first level open the percent is the finished count times the integer quotient 100 / total, between 0 and 100, and 0 when the total exceeds 100 |
| `ProgressCallbacks.PercentMonotone` | src/org/docma/coreapi/implementation/DefaultProgressCallback.java:241-262 | finishing more steps at any level never lowers the computed percent |
| `ProgressCallbacks.WeightBound` | src/org/docma/coreapi/implementation/DefaultProgressCallback.java:243-244 | a finished count within its total times 100 / total lies in [0, 100], and is 0 when the total exceeds 100 |
| `ProgressCallbacks.DivNonNegative` | src/org/docma/coreapi/implementation/DefaultProgressCallback.java:247-256 | a step weight divided by a positive total stays non-negative and multiplies back |
| `ProgressCallbacks.Zeros` | src/org/docma/coreapi/implementation/DefaultProgressCallback.java:270-277 | the new array slots that `Arrays.copyOf` adds hold zero |
| `XmlElementContext.SetAttributeLists` | src/org/docma/util/impl/XMLElementContextImpl.java:172-190 | the name and value lists stay of equal length |
| `XmlParser.NotDoctypeAt` | src/org/docma/util/XMLParser.java:113 | a tag whose second character is not '!' or whose third is not 'D' is not a DOCTYPE |
| `XmlParser.EndTagFacts` | src/org/docma/util/XMLParser.java:138-147 | a closing tag with a '>' is a well-shaped end token named by the trimmed text between "</" and '>' |
| `XmlParser.DelimitedFacts` | src/org/docma/util/XMLParser.java:85-135 | a token opened by its marker and closed by the first terminator after it is well delimited |
| `XmlParser.CommentShaped` | src/org/docma/util/XMLParser.java:87-98 | a comment runs from "<!--" to the first "-->" and is a well-shaped token when comments are reported |
| `XmlParser.CDataShaped` | src/org/docma/util/XMLParser.java:100-111 | a CDATA section runs from "<![CDATA[" to the first "]]>" and is well shaped when CDATA is reported |
| `XmlParser.PiShaped` | src/org/docma/util/XMLParser.java:124-135 | a processing instruction runs from "<?" to the first "?>" and is well shaped when PIs are reported |
| `XmlParser.StartTagFacts` | src/org/docma/util/XMLParser.java:149-167 | an opening tag whose attributes scan to a '>' is a well-shaped start token, empty when '/' precedes the '>' |
| `XmlUtil.ContainsInMiddle` | src/org/docma/util/XMLUtil.java:209 | a string contains any text placed inside it |

## Left out

- `copyDocStore` (src/org/docma/coreapi/DocStoreUtilities.java:50-127) is not modelled: it creates the target store, copies the store properties and sets up progress. The version walk it calls (`copyVersionsRecursive`) is modelled, with the set of versions to skip as a parameter.
- `closeDocStoreSilent`, `logVal` and the debug logging of the utilities are not modelled. They only write log text.
- `syncNodeAttributes_old` is not modelled. Nothing in the source calls it.
- The "Unknown node type" error of `nodesHaveSameType` cannot occur in the model, because node kinds are a closed datatype.
- SyncRecursive.SyncNodeRecursive: the synced tree (`TreeSynced`) is promised only for an anchored target node, one the source knows and that lies outside the source subtree below `sid`. Every recursive call syncs a child onto the target node of its own id, which is anchored. For a target root the source does not know, or one inside the subtree, the pruning of the child loop could delete or move that root itself, so the model states only the frame, the kinds, the count and the transaction state there.
- SyncRecursive.SyncNodeRecursive: a failed sync leaves the node tree with the writes made before the failure. The Java rolls back a transaction the call started, which undoes those writes on a store with transactions. The model's node tree is kept apart from the session's transaction state and is not rolled back.
- JavaText.ParseInt: accepts the ASCII digits `0`-`9` only; Java's `Integer.parseInt` also accepts the other Unicode decimal digits (Arabic-Indic, Devanagari and so on), so a suffix written in those is read as a number by Java and as text by the model.
- DocStoreSessions.DocStoreSession.GetDocStoreUuid: a stored UUID text is returned as it is; UUIDs are opaque strings in the model, so `UUID.fromString` and the `IllegalArgumentException` it throws for malformed stored text (AbstractDocStoreSession.java:645) are not modelled.
- DocStoreSessions.DocStoreSession.GetVersionUuid: as for `GetDocStoreUuid`, the `UUID.fromString` parse of a stored version UUID (AbstractDocStoreSession.java:682) is not modelled.
- ByteStreams.StreamsAreEqual: requires two distinct streams (or a null first one); comparing a stream with itself, where Java would read alternate bytes from the one stream, is not modelled. Its one caller compares a source stream with a separately opened target stream.
- TreeSync.DeleteSingleNode: a group passed as its own replacement is refused with an error. The Java would move the group's children back into the group and then remove it. `syncNodeRecursive` never makes this call, because the replacement is always a node of the source tree that is kept.
- The text of the "node ID already exists" error for `createXML(id)` and the other create methods with an explicit ID is the model's own. The interfaces do not fix it.
- VersionVerify.Step: promises only that the verification state stays valid; the error count it adds is stated by the lemmas about `VerifyVersionNode`.
- `MAX_VERIFY_ERRORS` only limits how many errors are logged. The log text of verification is not modelled; the error count is.
- File, stream and zip I/O beyond the in-memory byte streams is not modelled.
- ProgressCallbacks.ProgressCallback.CalcPercentFromSteps: computes the percent on exact reals, then rounds as `Math.round` does. The Java `float` arithmetic rounds every intermediate product and quotient, which can move a result that lies very close to a half to the neighbouring integer; that rounding is not modelled.
- `formatFloatSize` and `getSizeFloat` are not modelled, for the same reason.
- Internationalised message lookup is a parameter. The clock, UUID generation and the name hashing are parameters too.
- `synchronized` blocks and concurrency are not modelled. Every operation runs to completion before the next one starts.
- `DocEventDispatcher` and `LockEventDispatcher` are not part of this model. Dispatching an event queue returns the compressed list of events that every registered listener would receive; the listener callbacks themselves are not modelled.
- The database micro-commit choreography of the concrete stores is not modelled. Only the local transaction state of the abstract session is.
- The log counters of `DefaultLog` are `nat`. Java `int` overflow after 2^31 messages is not modelled.
- VersionCopy.CopyVersionStates: promises the copied state and release date only for a translation whose language code differs, ignoring case, from every other copied language and from `origAsTrans` (`CaseUnique`). When two codes differ only in case, Java writes the state and release date of the later language over those of the earlier under the same lower-cased key (src/org/docma/coreapi/implementation/AbstractDocStoreSession.java:440-447). The model does not state what such a colliding language ends up reading. The same gap carries over to `VersionCopy.SyncAndCopyStates`, `VersionCopy.CopyVersionContent` and `VersionCopy.CopyVersion`.
- XmlParser.Parser.Next: on a tokenizer error the parser keeps its current event as it was. Java has by then already overwritten the element name and part of the attribute lists with the malformed tag (src/org/docma/util/XMLParser.java:158-161). Those partly written fields are not modelled. The XML processor passes the error on and reads no further.
- CssParser.ParseCssProperties: the result is a Dafny `map`, which has no order. Java's `TreeMap` also iterates its keys in sorted order (src/org/docma/util/CSSParser.java:24-55). The model states which keys and values are present, not that iteration order.
- The `JavaText` module stands for the `java.lang.String` and `java.lang.Character` methods the source calls (`trim`, `indexOf`, `lastIndexOf`, `replace`, `toLowerCase`, `equalsIgnoreCase`, `Integer.parseInt` and the character classes). Its members are helpers with their own small contracts and have no rows of their own above.
- Java character classes (`toLowerCase`, `equalsIgnoreCase`, `isLetter`, `isJavaIdentifierStart`, `isJavaIdentifierPart`) are approximated on ASCII. Non-ASCII characters count as identifier characters but not as letters, and are not case-folded.
- The XPath and DOM helpers of `XMLUtil` (`compileXPath`, `evalXPathToBoolean`, `readTextChild`, `writeTextChild`, `getChildByTagName`, `getChildrenByTagName`) are not modelled. They delegate to library code.
- `attributeValueExists` is not modelled. It matches attribute values against a Java regular expression.
- The `setCheckWellformed(true)` call in `addCSSClass` and `removeCSSClass` is not modelled. `SimpleXMLProcessor` does not declare it, and the processor interface is not part of this model.
- The session's `nodeAddedEvent`, `nodeRemovedEvent` and `nodeChangedEvent` (src/org/docma/coreapi/implementation/AbstractDocStoreSession.java:205-234) are not modelled separately. They forward to the store's methods of the same names, which are modelled, and dispatch when no transaction is running.
- The session's listener registry (`addDocListener`, `removeDocListener`, `addLockListener`, `removeLockListener`, `onOpenDocStore`, `onCloseDocStore`; src/org/docma/coreapi/implementation/AbstractDocStoreSession.java:236-254 and 715-749) is not modelled. It forwards to the store's listener list and the lock manager's listener list, which are modelled.
- The session's `getRootVersions` and `deleteAllVersions` (src/org/docma/coreapi/implementation/AbstractDocStoreSession.java:483-497) are not modelled separately. They combine the modelled `getRootVersions` of the utilities with the modelled `deleteVersionsRecursive`.
- The session's plain getters (`getSessionId`, `getUserId`, `getVersionIdFactory`) and `createVersionId` are not modelled. Version IDs are plain strings in the model.

## Findings

| source | as written | input that shows it | evidently intended | confidence | as-written member | corrected member |
|---|---|---|---|---|---|---|
| src/org/docma/util/XMLParser.java:300 | on a malformed tag, `parseTagAttributes` returns the negated offset, which is 0 for offset 0 and so looks like a '>' at index 0 | the text `!` or the empty text, parsed at offset 0 | a negative result for every error, distinct from every tag end | not executed | `XmlParser.JavaTagEndAmbiguousAtZero` | `XmlParser.TagEndIndexDecides` |
| src/org/docma/coreapi/implementation/AbstractDocStoreSession.java:456-469 | `getVersionReleaseDate` looks up the key `"." + lang` as given, while `setVersionState` (440-447) stores the date under the lower-cased language | translation mode `DE`, version released at time 5 | the release date read back is the one stored, whatever the case of the language code | not executed | `DocStoreSessions.ReleaseDateLostForUpperCaseLanguage` | `DocStoreSessions.ReleaseRecordsDate` |
| src/org/docma/coreapi/DocStoreUtilities.java:1321-1334 | `verifyVersionProperties` reads the source version's property values through the target session under the source store id: within one store id it compares the target with itself and never reports a difference, and in a store that lacks the source's id it reports every property | source version `docs`/`1.0` with title `Manual`, target with title `Draft`: 0 errors as written | one error for each property whose value differs between source and target | not executed | `VersionVerify.DifferingPropertyMissedAsWritten` | `VersionVerify.CopiedPropertiesVerify` |
