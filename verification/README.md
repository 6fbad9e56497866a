# Calciforge: a verified model of its stateful core

This project models the parts of Calciforge that keep state, search or rewrite
text, and proves what they promise over every input and every run.

- **Rate limiter** (`RateLimiter`, `RateLimiterRuns`): the token buckets of the
  adversary detector with least-recently-used eviction, and bounds on what any
  run is granted. Instants are integer nanoseconds; accrued tokens are an exact
  floor; the saturating cast to `u32` and the wrapping addition of a release
  build are written out.
- **Fetch** (`DigestStore`, `Detector`, `FetchProtocol`, `Overrides`): the digest
  cache with human overrides, first as one sequential call, then as atomic steps
  of any number of interleaved fetches and approvals over a log. The invariant
  over all runs says that the store is what the log makes it and that every
  returned result is justified by what was logged before it; `Overrides` says
  exactly how long an approval lasts.
- **Conversation context** (`ConversationContext`, `ContextRuns`): ring buffer
  and watermarks, proved against the unbounded history of a chat.
- **Artifacts** (`PathOrder`, `Artifacts`, `AttachmentNames`): the breadth-first
  walk over a possibly cyclic directory graph, and the search for an unused
  attachment name.
- **Agent blocks** (`TomlText`, `JsonText`, `AgentUpsert`, `AgentBlocks`,
  `AgentEdits`, `AgentTheorems`, `AgentFile`, `AgentRuns`): the installer's textual TOML upsert on real
  lines of text, with its regular expressions read character by character.
- **Choices** (`Choices`, `PendingChoices`, `Rendering`): matching a free-text
  reply against numbered options, the pending choice of each identity, and the
  text in which the options are printed.
- **Model aliases** (`ModelAliases`) and **scanner verdicts** (`Scanner`).

Methods follow the source's loops and updates and are proved against functions;
the theorems are about those functions and about runs of them.

Where the code does not do what its documentation says, the code is modelled and
the difference is a theorem:

- The upsert is documented as idempotent. Its visible lines are, verbatim
  (`AgentTheorems.TwiceIsOnce`); its text is exactly when no table follows the
  block and no visible line directly precedes its comment
  (`AgentTheorems.ExactlyIdempotent`). The blank line before the comment is made
  at most once more, on the second run; the one before a following table is
  added on every run (`AgentRuns.TextGrows`, with a file in
  `AgentRuns.HermesGrows`).
- An agent whose id holds quotes, backslashes or characters that JSON escapes is
  never found again, so every run adds another block
  (`AgentTheorems.AddedIsFound`, `AgentRuns.BlocksPileUp`, with an id in
  `AgentRuns.BobIsLost`).
- Approved content is documented to pass in future fetches. A fetch that missed
  before the approval and stores after it drops the flag
  (`Overrides.RaceLosesOverride`). An approval is safe exactly if no fetch of its
  URL is past its lookup when it is given (`Overrides.SafeIffNoneInFlight`).
- Adding checks to the scanner is not always stricter: the first ones replace the
  built-in policy (`Scanner.MoreChecksNotMilder` gives the exact condition,
  `Scanner.FirstCheckCanBeMilder` the failing case).
- A TTL of 2^63 seconds or more reads as negative and expires every entry
  (`DigestStore.HugeTtlExpiresEverything`).
- A source that stays away long enough can have its token count wrap to zero and
  be denied (`RateLimiterRuns.WrapDeniesAfterLongWait`); this is the only
  exception to "waiting is enough" (`RateLimiterRuns.WaitingIsEnough`).
- With several controls, the number printed beside an option may resolve to an
  earlier control's option (`PendingChoices.NumberReachesOption`).
- The ring buffer is bounded by its capacity, except that capacity zero keeps
  everything (`ConversationContext.BufferBounded`).

## Model

| member | source | states |
|---|---|---|
| RateLimiter.RateLimiter.EvictIfNeeded | crates/adversary-detector/src/proxy.rs:136-148 | An over-full map loses exactly a fifth, rounded down; no removed source was accessed later than any survivor; the rest is untouched. |
| RateLimiter.RateLimiter.Check | crates/adversary-detector/src/proxy.rs:150-177 | The whole new map: eviction first, then one bucket refilled, capped and spent; the answer is whether a token was there. |
| RateLimiterRuns.MapStaysBounded | crates/adversary-detector/src/proxy.rs:136-159 | After every run the map holds at most 10001 sources. |
| RateLimiterRuns.EvictedIsStale | crates/adversary-detector/src/proxy.rs:136-148 | In any run an evicted source leaves at least 8001 survivors, each last checked no earlier than it was. |
| RateLimiterRuns.SlotIsBucket | crates/adversary-detector/src/proxy.rs:150-177 | What a run of the shared map keeps for one source is what a bucket of its own, reset by its evictions, would hold. |
| RateLimiterRuns.AllowedIsGranted | crates/adversary-detector/src/proxy.rs:171-176 | The per-source decision used in the run theorems is the answer of the check on the shared map. |
| RateLimiterRuns.GrantsBounded | crates/adversary-detector/src/proxy.rs:150-177 | In any run, with k bucket insertions, a source is granted at most k bursts plus the whole tokens its rate allows between its first and last check. |
| RateLimiterRuns.WindowBounded | crates/adversary-detector/src/proxy.rs:150-177 | Within a bucket's lifetime, any window that starts at a check grants at most one burst plus the whole tokens of its duration. |
| RateLimiterRuns.WaitingIsEnough | crates/adversary-detector/src/proxy.rs:161-176 | A check is allowed if and only if the source has no bucket, or it holds a token or one token's time has passed since the refill instant, and the addition does not wrap to zero; what was polled or spent in between does not matter. |
| RateLimiterRuns.CreditsMoveClock | crates/adversary-detector/src/proxy.rs:161-169 | A check that credits moves the refill instant to its own; any other check, granted or not, leaves it alone. |
| RateLimiterRuns.WaitingSinceRefill | crates/adversary-detector/src/proxy.rs:161-176 | In any run, one token's time after the last check that credited, the source is allowed if and only if the addition does not wrap. |
| RateLimiterRuns.PollingCostsNothing | crates/adversary-detector/src/proxy.rs:161-176 | After any check followed by denied ones only, one token's time later the source is allowed, with the same exception. |
| RateLimiterRuns.NoWrapWithinRange | crates/adversary-detector/src/proxy.rs:166-168 | The wrap cannot happen while the burst and all tokens accrued fit in 32 bits. |
| RateLimiterRuns.WrapDeniesAfterLongWait | crates/adversary-detector/src/proxy.rs:166-176 | A concrete run in which a long absence wraps the count to zero and the check is denied. |
| RateLimiterRuns.DeniedKeepsClock | crates/adversary-detector/src/proxy.rs:161-176 | A denied check finds an empty bucket and changes nothing but its access instant. |
| RateLimiterRuns.AtLeastHalfTheRate | crates/adversary-detector/src/proxy.rs:161-169 | In uncapped runs the credited tokens are worth at least half of the time the refill instant moved. |
| RateLimiterRuns.CheckIsExact | crates/adversary-detector/src/proxy.rs:150-177 | Each check of a run holds exactly the lesser of the burst and of what was kept plus the whole tokens accrued, or what the wrap leaves of it; it is allowed if that is anything, spends one, and sets both instants. |
| RateLimiterRuns.AccruedExactly | crates/adversary-detector/src/proxy.rs:163-166 | What accrues is the whole number of tokens that the elapsed time is worth at the rate. |
| RateLimiterRuns.WholeBurst | crates/adversary-detector/src/proxy.rs:161-176 | A source that is new, or has waited for a whole burst since its refill instant, has its next `burst_size` checks all allowed, unless it is evicted or a sum wraps. |
| DigestStore.DigestStore.Get | crates/adversary-detector/src/digest.rs:66-78 | Returns the entry of the URL unless it is missing or its age in whole seconds exceeds the TTL as a signed number. |
| DigestStore.DigestStore.MarkOverride | crates/adversary-detector/src/digest.rs:90-98 | Sets the flag of the entry with that URL and digest, and changes nothing otherwise. |
| DigestStore.UsableBounds | crates/adversary-detector/src/digest.rs:66-78 | A usable entry is younger than the TTL plus one second, and conversely; without a TTL every entry is usable. |
| DigestStore.HugeTtlExpiresEverything | crates/adversary-detector/src/digest.rs:69-74 | A TTL of 2^63 seconds or more makes every past entry unusable. |
| Detector.AdversaryDetector.Fetch | crates/adversary-detector/src/proxy.rs:241-347 | Result, limiter map and store after one call: rate limit, failure, skip list, cache hit or scan and store, in this order, each case spelled out. |
| Detector.FetchAnswers | crates/adversary-detector/src/proxy.rs:254-401 | A rate-limited or failed fetch is Blocked with its URL and no digest; what passes is the fetched content with its digest; a Review not overridden gives the reason, the digest and an annotated text that ends with the content; Unsafe gives the reason without content; a stored verdict counts only for the same digest in time. |
| Detector.UsableIsInTime | crates/adversary-detector/src/digest.rs:69-74 | A TTL of zero never expires, a positive one after its whole seconds, a huge one always. |
| Detector.AdversaryDetector.MarkOverride | crates/adversary-detector/src/proxy.rs:353-356 | The store after an approval. |
| Detector.OverrideLasts | crates/adversary-detector/src/proxy.rs:295-316 | While fetches of an approved URL see the same content in time, its entry never changes, timestamp included, and they return it as Ok. |
| Detector.OverrideDropped | crates/adversary-detector/src/proxy.rs:317-346 | The first fetch that sees other content, or the same too late, is answered by its own verdict and leaves the URL unapproved until its new digest is approved. |
| FetchProtocol.InvariantHolds | crates/adversary-detector/src/proxy.rs:241-356 | After any interleaving the store holds exactly the last store of each URL, approved exactly if the log approved that digest since; every store had its scan; every fetch past its lookup missed the cache for good reason; every result is justified. |
| FetchProtocol.EveryResultJustified | crates/adversary-detector/src/proxy.rs:295-347 | Each returned result reflects the last stored verdict for that URL and digest, within the TTL, and the approvals since; or its own scan, made only after a lookup at which the last store was of another digest or too old. |
| FetchProtocol.UnsafePassesOnlyByOverride | crates/adversary-detector/src/proxy.rs:367-402 | A cached result is Ok if and only if the verdict last stored for its URL passes or exactly that URL and digest were approved since that store; a scanned result is Ok if and only if its own, only scan passes; otherwise it shows the warning or is Blocked with the reason. |
| FetchProtocol.EachScansOnce | crates/adversary-detector/src/proxy.rs:321-325 | In any interleaving a fetch is scanned at most once. |
| FetchProtocol.ResultsAreWhole | crates/adversary-detector/src/proxy.rs:254-401 | In any interleaving every Ok carries exactly the fetched content and its digest; rate-limited and failed fetches are Blocked with their URL and no digest; a skip-listed one is Ok. |
| FetchProtocol.ContentArrived | crates/adversary-detector/src/proxy.rs:272-296 | In any interleaving a result with content is about the content that arrived for that very fetch. |
| FetchProtocol.CacheWithinTtl | crates/adversary-detector/src/proxy.rs:295-316 | No cached verdict is served later than the TTL after it was stored, in whole seconds; hits never renew it. |
| FetchProtocol.UninterruptedIsFetch | crates/adversary-detector/src/proxy.rs:241-347 | The atomic steps of one fetch, run without interruption, are the sequential fetch. |
| Overrides.UnchangedUntilStored | crates/adversary-detector/src/proxy.rs:325-356 | In any interleaving an approved entry stays as it is, timestamp included, exactly as long as no fetch stores for its URL. |
| Overrides.UnchangedIffNotStored | crates/adversary-detector/src/proxy.rs:325-356 | Unless the same content is approved again, the entry at the end is the approved one if and only if nothing was stored for its URL in between. |
| Overrides.ApprovalLasts | crates/adversary-detector/src/proxy.rs:295-341 | An approval lasts if no fetch of its URL is past its lookup when it is given and every later lookup sees the approved content within the TTL. |
| Overrides.LookUpConsultsStore | crates/adversary-detector/src/proxy.rs:295-316 | A lookup returns at once if and only if the stored entry is of its digest and usable, and then shows that entry; otherwise the fetch goes on to a scan. |
| Overrides.LookUpPasses | crates/adversary-detector/src/proxy.rs:295-316 | While the approved entry is there, every lookup that sees its content in time returns that content as Ok. |
| Overrides.ApprovedContentPasses | crates/adversary-detector/src/proxy.rs:349-356 | Under the condition of `ApprovalLasts`, every later lookup of the URL returns the approved content as Ok. |
| Overrides.SafeIffNoneInFlight | crates/adversary-detector/src/proxy.rs:319-356 | The entry survives every continuation whose lookups see the approved content in time if and only if no fetch of the URL is past its lookup at the approval. |
| Overrides.RaceLosesOverride | crates/adversary-detector/src/proxy.rs:325-341 | An interleaving in which a late store drops an approval of the very same content, and the next fetch is blocked. |
| ConversationContext.ConversationContext.Push | crates/calciforge/src/context.rs:104-128 | Appends the numbered exchange to the history and keeps the buffer its last part and every watermark the agent's last answer. |
| ConversationContext.ConversationContext.Unseen | crates/calciforge/src/context.rs:139-149 | The buffered exchanges above the watermark are the history from the agent's last answer on, as far as buffered. |
| ConversationContext.ConversationContext.BuildPreamble | crates/calciforge/src/context.rs:134-170 | Renders exactly the suffix of the history that starts at the greatest of n - capacity, n - depth and the agent's last answer + 1. |
| ConversationContext.LastAnswerPushed | crates/calciforge/src/context.rs:125-127 | A push moves the last answer of the answering agent and of no other. |
| ConversationContext.BufferBounded | crates/calciforge/src/context.rs:114-123 | The buffer holds at most `capacity` exchanges if and only if the capacity is positive or nothing was pushed; at capacity zero it holds everything. |
| ConversationContext.ContextStore.AugmentMessage | crates/calciforge/src/context.rs:233-253 | The message always ends what is sent, and is all of it exactly if it is a preserved native command or the window is empty; otherwise it follows the bracketed exchanges of the window and a blank line. |
| ConversationContext.AugmentedTells | crates/calciforge/src/context.rs:162-170 | What precedes the message is the opening, then for each exchange of the window, in order and with nothing in between, its line with sender and prompt and its line with agent and response, then the closing bracket. |
| ConversationContext.WindowIs | crates/calciforge/src/context.rs:139-160 | An exchange is in the window if and only if it is within depth and capacity and neither it nor a later one was answered by the agent. |
| ConversationContext.NativeCommandIs | crates/calciforge/src/context.rs:44-52 | A native command is a slash as first visible character, then a letter, and no further slash before the next white space. |
| ConversationContext.ContextStore.Push | crates/calciforge/src/context.rs:268-291 | Extends the history of one chat, creating it if needed, unless the prompt is a native command; other chats are untouched. |
| ConversationContext.ContextStore.Clear | crates/calciforge/src/context.rs:294-297 | Forgets one chat and no other. |
| ContextRuns.NothingBeforeAnswer | crates/calciforge/src/context.rs:104-170 | After an agent answered, no later window of it reaches back to that exchange, whatever is pushed or cleared. |
| ContextRuns.AnsweredWindowsDisjoint | crates/calciforge/src/context.rs:233-291 | The windows injected into an agent's successive answered dispatches are disjoint, whatever other agents do in between. |
| ContextRuns.UnansweredWindowsRepeat | crates/calciforge/src/context.rs:233-291 | Without an answer, an injected exchange is injected again exactly if it is still within depth and capacity. |
| ContextRuns.DeliveredExactlyOnce | crates/calciforge/src/context.rs:233-291 | In any run of dispatches, pushes and clears, an exchange answered by others is injected into at most one of an agent's answered dispatches - the one its first later answer belongs to - and into that one if and only if it was pushed before it, not cleared, and within depth and capacity. |
| ContextRuns.KeepingUpMissesNothing | crates/calciforge/src/context.rs:233-291 | If at most min(capacity, depth) exchanges lie behind an agent's last answer, its dispatch injects every exchange since, unless cleared. |
| Artifacts.ReadEntries | crates/calciforge/src/artifacts.rs:138-206 | Fails exactly if an entry is unacceptable or a total is exceeded, naming a fault that is there; otherwise adds exactly the directory's files and its new directories. |
| Artifacts.CollectRunArtifacts | crates/calciforge/src/artifacts.rs:122-212 | Terminates on cyclic graphs; succeeds exactly if all that is reachable is readable, inside the base and within the limits; returns all its files sorted by path; reads each reachable directory once; an error names a real fault. |
| Artifacts.ClosedHoldsReach | crates/calciforge/src/artifacts.rs:132-167 | A set of directories with the base that is closed under entries holds everything reachable by any walk. |
| Artifacts.SortedIsUnique | crates/calciforge/src/artifacts.rs:210-211 | There is one sorted list of given files. |
| Artifacts.OrderIndependent | crates/calciforge/src/artifacts.rs:122-212 | Success and the returned list do not depend on the order in which directories are enumerated. |
| Artifacts.CollectedExactly | crates/calciforge/src/artifacts.rs:122-212 | Success if and only if every entry of every reachable directory resolves inside the base and, if a file, is known and not too large, and the totals are within 100 MiB and the given number; then the result holds exactly the files these entries lead to, with path, length and type. |
| Artifacts.EachEntryOnce | crates/calciforge/src/artifacts.rs:171-207 | Each file entry is counted once. |
| Artifacts.SortedIsAscending | crates/calciforge/src/artifacts.rs:210 | The returned list ascends by path, in the order spelled out by `PathLessIs`. |
| PathOrder.PathTrichotomy | crates/calciforge/src/artifacts.rs:210 | Any two paths are ordered one way, or equal. |
| PathOrder.PathTransitive | crates/calciforge/src/artifacts.rs:210 | The order of paths is transitive. |
| PathOrder.PathLessIs | crates/calciforge/src/artifacts.rs:210 | A path comes before another if and only if it is a proper prefix, or its first differing component is a proper prefix of the other's or has the smaller character where they first differ. |
| AttachmentNames.AttemptsDiffer | crates/calciforge/src/artifacts.rs:398-404 | The names tried in different attempts differ, for every file name. |
| AttachmentNames.SomeNameUnused | crates/calciforge/src/artifacts.rs:374-396 | With fewer than 1024 names taken, some attempt's name is free. |
| AttachmentNames.RunDirectory.CreateUnique | crates/calciforge/src/artifacts.rs:374-396 | Creates the first free name - the plain one if it is free - and never an existing one; gives up exactly if all 1024 are taken; an I/O error leaves the directory as it was. |
| AttachmentNames.SanitizeAttachmentName | crates/calciforge/src/artifacts.rs:345-372 | The in-place edits compute the sanitized name. |
| AttachmentNames.SanitizedIsPlain | crates/calciforge/src/artifacts.rs:345-372 | Whatever is asked for, the name is a bounded plain file name with an extension: no separator, not hidden, not a dot name. |
| AttachmentNames.PlainNamesKept | crates/calciforge/src/artifacts.rs:345-372 | A plain name of at most 128 characters is kept, also as the last component of a path. |
| AttachmentNames.SanitizedIs | crates/calciforge/src/artifacts.rs:345-372 | For any path: the last component without leading dots, unsafe characters replaced one by one; a numbered name if nothing is left; cut to 128 characters and then stripped of final dots; and the extension of the MIME type if no dot remains. |
| AttachmentNames.ExtensionIs | crates/calciforge/src/artifacts.rs:406-419 | The extension for each known MIME type, and `.bin` for the others. |
| AttachmentNames.AttemptNames | crates/calciforge/src/artifacts.rs:398-404 | The name itself first, then behind the attachment's number, then behind that and the attempt's. |
| AttachmentNames.EncodedLimitIsSafe | crates/calciforge/src/artifacts.rs:243-248 | The length limit on the base64 text (section 4 of RFC 4648) refuses no payload within the byte limit and admits at most five bytes more. |
| TomlText.ReadFinds | scripts/lib/upsert-calciforge-agent.py:100-109 | Reading a line composed of indentation, key, spacing and value finds these parts. |
| TomlText.ReadSplits | scripts/lib/upsert-calciforge-agent.py:100-109 | The parts read from a line are proper and compose to that line. |
| TomlText.ReadSetValue | scripts/lib/upsert-calciforge-agent.py:103-108 | Replacing a value keeps the key, sets the value, and changes nothing if the value is there already. |
| TomlText.SetValueIs | scripts/lib/upsert-calciforge-agent.py:103-108 | All the text of a line up to its value stays. |
| TomlText.QuotedIs | scripts/lib/upsert-calciforge-agent.py:90-91 | A value gives an id if and only if it begins with that id, not empty and without quotes, between two quotes of either kind. |
| TomlText.HeaderReads | scripts/lib/upsert-calciforge-agent.py:39-51 | A line of balanced brackets is a child of an agent if its inner text begins with `agents.`, an agent if it is `agents`, and another table otherwise. |
| TomlText.HeaderHasForm | scripts/lib/upsert-calciforge-agent.py:39-51 | Only such lines are headers. |
| TomlText.MismatchIsNoHeader | scripts/lib/upsert-calciforge-agent.py:43-45 | Brackets that do not match make no header. |
| JsonText.QuotedIdReadsBack | scripts/lib/upsert-calciforge-agent.py:90-91 | The id read from the line written for an id is that id exactly for plain ids: visible ASCII or spaces, no quotes, no backslash. |
| JsonText.QuoteReadsBack | scripts/lib/upsert-calciforge-agent.py:21-22 | Every string is read back from its JSON text by a reader of escapes and surrogate pairs, whatever follows. |
| JsonText.ListReadsBack | scripts/lib/upsert-calciforge-agent.py:21-22 | And every list of strings. |
| AgentUpsert.AgentBlockEnd | scripts/lib/upsert-calciforge-agent.py:54-59 | The block ends at the next agent or other table. |
| AgentUpsert.AgentTopEnd | scripts/lib/upsert-calciforge-agent.py:62-66 | The top part ends at the first child table. |
| AgentUpsert.AttachedCommentStart | scripts/lib/upsert-calciforge-agent.py:69-80 | The topmost comment above the table, across blank lines, if the managed note is among them. |
| AgentUpsert.FindExistingAgent | scripts/lib/upsert-calciforge-agent.py:83-93 | The first agent table whose top part gives this id. |
| AgentUpsert.UpsertKeyLine | scripts/lib/upsert-calciforge-agent.py:100-113 | Replaces or keeps the first line of the key, or inserts one before the trailing blank lines. |
| AgentUpsert.UpdateTop | scripts/lib/upsert-calciforge-agent.py:194-206 | All updates in order, then the registry line if there is no registry. |
| AgentUpsert.UpdateBlock | scripts/lib/upsert-calciforge-agent.py:187-215 | The lines around the rewritten block, with the blank lines put between. |
| AgentUpsert.UpsertAgent | scripts/lib/upsert-calciforge-agent.py:161-217 | The file written, and whether the block was added. |
| AgentBlocks.ShapeFound | scripts/lib/upsert-calciforge-agent.py:54-93 | A file split as before, top, children and rest, with no earlier block of the id, is found at that split. |
| AgentBlocks.FoundShape | scripts/lib/upsert-calciforge-agent.py:54-93 | A found block splits its file in this shape. |
| AgentTheorems.UpsertSettles | scripts/lib/upsert-calciforge-agent.py:161-217 | A run leaves a file with a managed, up-to-date block whose top part is the updated one. |
| AgentTheorems.AgentIsFound | scripts/lib/upsert-calciforge-agent.py:161-217 | After a run the agent is found, managed and up to date, with a registry. |
| AgentTheorems.AddedIsFound | scripts/lib/upsert-calciforge-agent.py:181-185 | An added block is found again if and only if the id is plain. |
| AgentTheorems.BlockCarries | scripts/lib/upsert-calciforge-agent.py:194-202 | The block carries the requested kind, endpoint and timeout, a supplied key file and an enabled override. |
| AgentTheorems.AskedForIsSet | scripts/lib/upsert-calciforge-agent.py:194-204 | Every value that overwrites, or that was missing, is the one asked for. |
| AgentTheorems.OtherValuesKept | scripts/lib/upsert-calciforge-agent.py:199-204 | Existing aliases, model and every value not overwritten are kept, up to the final strip of the text. |
| AgentTheorems.TopKeepsTheRest | scripts/lib/upsert-calciforge-agent.py:100-113 | Apart from the first line of each key that is overwritten or was missing, the lines of the top part stay verbatim, in order: further lines of these keys, keys not to be overwritten, and everything else. |
| AgentFile.FoundStartIs | scripts/lib/upsert-calciforge-agent.py:69-80 | The block begins at its table unless the run of comments and blank lines directly above mentions the managed phrase, and then at the topmost comment of that run. |
| AgentFile.CommentIs | scripts/lib/upsert-calciforge-agent.py:72-74 | Comments are the lines that begin with a hash sign; an agent's table is its header between white space. |
| AgentFile.UpdateChangesNothingElse | scripts/lib/upsert-calciforge-agent.py:187-216 | An update keeps all visible lines above the table, in child tables, and from the block's end on, verbatim, and puts the managed comment above the table exactly if the run there does not mention the phrase; only the last visible line of the file is stripped at its end. |
| AgentFile.UpdatedTextIs | scripts/lib/upsert-calciforge-agent.py:187-216 | The whole text of an update, blank lines included. |
| AgentFile.AddedTextIs | scripts/lib/upsert-calciforge-agent.py:181-184 | The whole text of an addition. |
| AgentFile.NewTableIs | scripts/lib/upsert-calciforge-agent.py:133-157 | A new table, line by line. |
| AgentFile.InsertedLineIs | scripts/lib/upsert-calciforge-agent.py:110-113 | A missing key is inserted behind the last visible line of the top part. |
| AgentFile.BlockBecomes | scripts/lib/upsert-calciforge-agent.py:194-206 | What the block says afterwards, key by key: overwritten values; a model and aliases only where there were none; a registry only where there is neither the key nor a child table; all else as before. |
| AgentFile.UpdatesAre | scripts/lib/upsert-calciforge-agent.py:194-204 | Which updates are asked for. |
| AgentFile.TimeoutReadsBack | scripts/lib/upsert-calciforge-agent.py:198 | The timeout is written as its decimal numeral. |
| AgentFile.LoadedIs | scripts/lib/upsert-calciforge-agent.py:162-163 | A missing or blank file becomes the minimal configuration; any other is taken as it is. |
| AgentTheorems.AddChangesNothingElse | scripts/lib/upsert-calciforge-agent.py:182-185 | Adding a block keeps all visible lines before it verbatim, but for the white space at the end of the last one. |
| AgentTheorems.SecondRun | scripts/lib/upsert-calciforge-agent.py:208-216 | A second run adds exactly the blank lines of the gaps, and nothing else. |
| AgentTheorems.TwiceIsOnce | scripts/lib/upsert-calciforge-agent.py:161-217 | A second run changes no visible line, not even in its white space. |
| AgentTheorems.ManyIsOnce | scripts/lib/upsert-calciforge-agent.py:161-217 | Nor do any number of runs, and the agent stays found. |
| AgentTheorems.ExactlyIdempotent | scripts/lib/upsert-calciforge-agent.py:208-216 | The text is unchanged by a second run if and only if no table follows and no visible line directly precedes the block. |
| AgentRuns.TextGrows | scripts/lib/upsert-calciforge-agent.py:208-216 | After the first run, each run adds one line if and only if a table follows the block, and the second run one more if no blank line precedes the comment. |
| AgentRuns.LinesAfterRuns | scripts/lib/upsert-calciforge-agent.py:208-216 | The number of lines after n runs, for every n from two on. |
| AgentRuns.TwoAgentsGrow | scripts/lib/upsert-calciforge-agent.py:213-215 | Where the block of one agent follows that of another, updating the first makes the file a line longer every time. |
| AgentRuns.HermesGrows | scripts/lib/upsert-calciforge-agent.py:213-215 | A concrete file that grows without end. |
| AgentRuns.BlocksPileUp | scripts/lib/upsert-calciforge-agent.py:181-185 | An agent whose id is not plain is never found: n runs add n blocks. |
| AgentRuns.BobIsLost | scripts/lib/upsert-calciforge-agent.py:90-91 | A concrete id with an apostrophe to which this happens. |
| Rendering.RenderTextFallback | crates/calciforge/src/messages.rs:65-126 | The loops over attachments, controls and options print the specified text. |
| Rendering.OptionIsPrinted | crates/calciforge/src/messages.rs:97-125 | Every option has a line of its own in the text, with its number, label and command, whatever the text, titles and other controls are. |
| Rendering.OptionsFollow | crates/calciforge/src/messages.rs:107-116 | The options of a control stand on consecutive lines, in order. |
| Rendering.TitleIsPrinted | crates/calciforge/src/messages.rs:103-106 | Every visible title has its line. |
| Rendering.TextIsFirst | crates/calciforge/src/messages.rs:66 | A visible text begins the fallback verbatim, and what follows starts on a new line. |
| Rendering.AttachmentsFollow | crates/calciforge/src/messages.rs:68-72 | Attachments are announced behind the text, after a blank line if it is visible. |
| Rendering.AttachmentIsPrinted | crates/calciforge/src/messages.rs:73-92 | Every attachment has its line with type, name, size and caption. |
| Rendering.NeverBlank | crates/calciforge/src/messages.rs:122-126 | The fallback is never blank, and says so when there is nothing to say. |
| Rendering.PrintedNumberResolves | crates/calciforge/src/messages.rs:97-119 | The number read from any such line resolves to that option in its control, and among all controls if and only if every earlier control has too few options for it. |
| Choices.NumberResolves | crates/calciforge/src/messages.rs:215-229 | A positive number, with spaces and hashes around it, resolves to the option it counts, and is out of range otherwise. |
| Choices.TiersNest | crates/calciforge/src/messages.rs:242-289 | Exact hits are prefix hits, and prefix hits are substring hits. |
| Choices.LabelMatchIs | crates/calciforge/src/messages.rs:229-292 | A label reply selects an option exactly if some applicable tier hits it alone, and nothing exactly if no applicable tier hits. |
| Choices.ReplyMatchIs | crates/calciforge/src/messages.rs:215-292 | What a reply is matched to: nothing, an option by number or none in range, or the option that some applicable tier hits alone; substrings count from two characters on. |
| Choices.TrimmedIs | crates/calciforge/src/messages.rs:216 | White space around a reply, and hash signs before it, do not matter. |
| Choices.ReplySplits | crates/calciforge/src/messages.rs:216 | And nothing else is taken off. |
| Decimal.ParseUsizeIs | crates/calciforge/src/messages.rs:222 | Exactly the numerals in range are numbers, with leading zeros and one plus sign allowed. |
| Choices.NormalizeTwice | crates/calciforge/src/messages.rs:313-321 | Normalising is idempotent and yields single-spaced lower-case words. |
| Choices.ScanIsNormalize | crates/calciforge/src/messages.rs:313-321 | Splitting and joining equals an independent one-pass scan that keeps letters, digits and single separating spaces. |
| PendingChoices.ChoiceBook.Record | crates/calciforge/src/commands.rs:576-590 | Remembers the controls of one identity with their expiry; a message without controls changes nothing. |
| PendingChoices.ChoiceBook.Resolve | crates/calciforge/src/commands.rs:599-642 | Answer and remembered choices after a reply: expiry first, then the controls; only an ambiguous reply keeps the choice. |
| PendingChoices.TryControls | crates/calciforge/src/commands.rs:611-628 | The loop over the controls finds the first unique match, or what was attempted. |
| PendingChoices.NumberReachesOption | crates/calciforge/src/commands.rs:613-619 | With several controls, the number printed beside option k resolves to it if and only if every earlier control has at most k options. |
| PendingChoices.CommandIsAnOption | crates/calciforge/src/commands.rs:613-619 | A command is that of an option uniquely matched in the first control that has a unique match. |
| PendingChoices.AnswerIs | crates/calciforge/src/commands.rs:611-641 | A command if and only if some control matches uniquely; a request for a number if and only if none does but one is ambiguous; a notice if and only if neither, but the number is out of range somewhere. |
| PendingChoices.FirstUniqueWins | crates/calciforge/src/commands.rs:613-619 | The command is that of the option matched by the first control with a unique match. |
| PendingChoices.RememberedIsOpen | crates/calciforge/src/commands.rs:576-642 | In any run, what is remembered for an identity is its latest shown choice that no reply used up, with its original expiry. |
| PendingChoices.ReplyIsFromOpenChoice | crates/calciforge/src/commands.rs:599-642 | Every reply is answered from that choice strictly before its expiry, and is no choice otherwise. |
| PendingChoices.OneCommandPerChoice | crates/calciforge/src/commands.rs:613-619 | Two commands to one identity come from two different shown choices. |
| PendingChoices.OthersUntouched | crates/calciforge/src/commands.rs:576-642 | Calls for one identity leave all others as they were. |
| ModelAliases.ResolveModelAliasChain | crates/calciforge/src/model_names.rs:151-179 | Terminates for every shortcut list; a name returned ends the chain; an error lists the chain up to its first repetition. |
| ModelAliases.NextIsFirst | crates/calciforge/src/model_names.rs:168-174 | Of several shortcuts with the same alias the first one counts. |
| ModelAliases.EndsOrCycles | crates/calciforge/src/model_names.rs:151-179 | The outcome is settled by the chain: success with a name exactly if the chain ends there, failure exactly if it cycles. |
| ModelAliases.CyclesNeverEnd | crates/calciforge/src/model_names.rs:156-165 | A chain that meets itself has no end. |
| ModelAliases.EndIsUnique | crates/calciforge/src/model_names.rs:168-176 | A chain has at most one end. |
| ModelAliases.ChainSharesEnd | crates/calciforge/src/model_names.rs:151-179 | Every name on a resolving chain has the same end, and the end resolves to itself. |
| Scanner.Scan | crates/adversary-detector/src/scanner.rs:381-413 | The short-circuiting loop over the configured checks - the built-in policy if there are none - returns the first verdict of greatest severity among them all. |
| Scanner.VerdictIsDetermined | crates/adversary-detector/src/scanner.rs:381-413 | That verdict is unique, and as severe as the most severe contribution. |
| Scanner.RemoteCheckDecides | crates/adversary-detector/src/scanner.rs:448-465 | Only "clean" is clean and only "review" is a review; any other reply is Unsafe, with the service's reason or a default; no reply is Unsafe if the check fails closed. |
| Scanner.PolicyDecides | crates/adversary-detector/src/scanner.rs:477-494 | A policy's own verdict is passed on; its failure is Unsafe if the check fails closed. |
| Scanner.VerdictExists | crates/adversary-detector/src/scanner.rs:381-413 | Every configuration has one, whatever the checks find. |
| Scanner.OrderKeepsSeverity | crates/adversary-detector/src/scanner.rs:383-412 | Reordering the configured checks never changes the severity, whatever they find. |
| Scanner.MoreChecksNotMilder | crates/adversary-detector/src/scanner.rs:185-191 | Adding checks anywhere lowers the severity of no scan if and only if there were checks before, or none are added, or the built-in policy is among the new ones. |
| Scanner.FirstCheckCanBeMilder | crates/adversary-detector/src/scanner.rs:177-191 | In the excluded case the verdict turns from Unsafe to Clean where the built-in policy fails and the new checks are clean. |
| Scanner.FailClosedNotMilder | crates/adversary-detector/src/scanner.rs:448-455 | Switching a configured check to fail closed never lowers the severity, and its failure then makes the verdict Unsafe. |
| Scanner.RegexCache.Find | crates/adversary-detector/src/scanner.rs:227-235 | The first critical section returns what is cached, which is what compiling gives. |
| Scanner.RegexCache.Remember | crates/adversary-detector/src/scanner.rs:237-250 | The second uses an entry made meanwhile or adds one while there is room; entries never change. |
| Scanner.RegexCache.Match | crates/adversary-detector/src/scanner.rs:226-254 | Matching through the bounded cache is matching without it; each critical section relies only on what every call keeps. |

## Left out

- The rounding of `f64` in the limiter: accrued tokens are an exact floor of elapsed nanoseconds times rate.
- HTTP, locks as objects, the audit log and tracing; the atomic steps that the locks delimit are kept.
- Loading, flushing and the JSON form of the digest store; runs of the fetch protocol start from an empty store.
- SHA-256 is an arbitrary function of the content: two contents with one digest share their verdict, as in the code.
- Cool-down text in the rate-limit reason, and the wording of error and help messages.
- Host extraction from a URL: the host is a parameter, empty when there is none.
- The scanner's oracle: Starlark evaluation, the regular expression engine and remote services are inputs.
- AgentUpsert.FindExistingAgent: the id pattern could match across a line break (an `id =` whose value stands on the next line, which TOML does not allow); ids are read line by line.
- `mark_seen` of a context, which no production path calls.
- Overflow of the exchange counter at 2^64.
- White space, letters and case are ASCII in Choices, in native-command detection and in the TOML lines.
- ConversationContext.ContextStore.AugmentMessage: the store has no lock; the number of exchanges of a chat, and the convenience forms without options, are left out as plain lookups.
- Artifacts.CollectRunArtifacts: reads a file system that does not change meanwhile; MIME detection is an oracle, and the attachment kind and caption are derived data. Which of several faults is reported depends on the enumeration order.
- The base64 codec, MIME checks and the writing of attachment bytes.
- Library sorts are stable insertion sorts; the iteration order of hash maps is arbitrary.
- The text of a TOML file is its sequence of lines: splitting and joining at line breaks is not modelled, nor are ids that contain line breaks.
- Splitting the alias list at commas and lower-casing the override flag happen before the model's upsert.
- Button payloads of options, and the channels that use them instead of numbers.
- Run-directory creation and clean-up, profiles, configuration, diagnostics, session switching, gateway routing and the plugins.
- The agent selector of the `btw` command is a lookup in tables that are not part of this model.
