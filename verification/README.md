# Verification of navra's protocol and accounting code

navra is a gateway between agents and upstream tool servers. It decides which upstream tools may
be registered, signs and pins their manifests, meters calls, keeps a tamper-evident audit log,
assembles prompts under a token budget and runs flows with controlled loops. This project models
the parts of it whose correctness depends on a whole input or a whole run, and proves what they
promise:

- `Wrappers`, `Utf8`, `Decimal`: shared definitions, byte lengths, truncation at a character boundary, decimal digits.
- `EditDistance`, `Typosquatting`: the two-row edit distance is the cheapest edit script and a
  metric; what a typosquatting finding, or its absence, therefore means.
- `CanonicalJson`, `CanonicalPrinter`, `CanonicalParser`, `ObjectScan`, `Fingerprint`: the JSON that
  is signed and hashed, a reader for it (string escapes as in section 7 of RFC 8259), and the proof
  that the bytes determine the contents and nothing but the contents.
- `KeyPinning`: trust on first use over every run of verifications.
- `RugPull`, `HashFile`: noticing that a tool definition changed since its last scan, and what is
  left of that when many scanners share one file.
- `AuditChain`: the hash-chained log, its recorder, its verifier, and what its last hash binds.
- `Quota`, `QuotaBounds`, `QuotaRuns`: the token bucket, what any interval of any run admits, and
  what the engine guarantees each of many agents.
- `PromptBudget`, `PromptWeaver`: token estimates, truncation, the caps on upstream prompts.
- `DiscoveryBounds`, `ToolRegistry`, `UpstreamWatcher`: what an upstream may register, how its
  registry entries are swapped, and the loop that refreshes them.
- `BackEdges`, `Blackboard`, `TrustScore`: controlled loops, shared labelled state, session trust.

Code that changes state in place is a class, an array or a loop here, proved against a
specification function; what the code promises is then proved of that function over all inputs or
all runs. Clocks are natural numbers passed in. SHA-256, Ed25519, hex and key decoding, the PII
filter and the size of a serialized tool are function parameters; nothing is assumed of them
except where a lemma's `requires` says so. No assumption is made outside those clauses.

## Where the code does not do what its documentation says

The model follows the code. Each of these is proved, with the exact condition under which the
promise does hold:

- The audit guide promises that modifying any field of any entry, or inserting, deleting or
  reordering entries, breaks the chain. Rows are read in the order of their numbers. Given a hash
  without collisions, whatever is done to a log, it verifies exactly when what is there is the log
  up to some row, with the same texts, followed by rows that were all hashed afresh and link up
  (`AuditChain.TamperedLogVerifiesIffForged`). So rows kept from the log can be exchanged, repeated,
  left out and renumbered only into the log up to some row (`RearrangementIsSilentIffPrefix`);
  deletions are silent exactly at the end (`DeletionIsSilentIffAtEnd`), insertions exactly when
  appended (`InsertionIsSilentIffAppended`), and never with a renumbered rest
  (`RenumberedInsertionIsNoticed`); every change of a row's hashed columns is noticed exactly when
  the row is not the last and none of its fields holds a `|`, and changes of the unhashed columns
  never are (`EveryEditIsNoticedIff`).
- One failed insert breaks the chain for good, exactly when another insert succeeds before the log
  is reopened (`AuditChain.RunVerifiesIffNoInsertAfterLoss`).
- The tool fingerprint is order-insensitive exactly when tools of the same name have the same
  definition (`Fingerprint.OrderIsIrrelevantIffNamesAreKeys`).
- Only the advertised name is normalized, so a known name that is not its own normal form can never
  be reported as imitated by a confusable (`Typosquatting.CriticalNeedsNormalKnownName`).
- Two upstreams can share a stored tool hash, exactly when one name continues the other after a
  colon (`RugPull.KeysApartIffSeparate`); a change can then go unreported
  (`RugPull.SharedKeyHidesChange`).
- Every upstream's scanner writes its whole store over the one file, so a scan can be forgotten at
  the next start without any shared key (`HashFile.OverwrittenScanIsForgotten`). A reopened scanner
  reports exactly what differs from the scan its copy stems from
  (`HashFile.ReportsIffOriginDiffers`), which is the last one if nobody wrote the file since from an
  older copy (`HashFile.NoStaleWriterKeepsLastScan`).
- A drained bucket never recovers when the window is so long that the refill rate rounds to zero
  (`QuotaBounds.DrainedBucketRecoversIff`), and polling often enough stops all refills
  (`QuotaBounds.PollingStarvesIffGapsAreWorthless`).
- Prompt truncation overshoots its budget exactly when the count of the bytes left out has more than
  12 digits plus one for every byte given up to end at a sentence or line
  (`PromptBudget.TruncationFitsIff`); joining costs one token more than the parts, exactly
  when rounding left no room (`PromptBudget.ExtraTokenIff`).
- Upstream prompts can pass their documented total by up to 18 bytes per later insertion, exactly when
  one follows an insertion in which an entry met 1 to 18 remaining bytes
  (`PromptWeaver.PrefixKeepsCapIff`, with a list of prompts in `PromptWeaver.TotalCanPassTheCap`).
- A truncated tool description is always longer than the limit it was cut to
  (`DiscoveryBounds.TruncatedIsStillTooLong`).
- A refused tool name is recorded as the module's own, and its next refresh removes the tool of
  whoever holds it, the gateway included (`ToolRegistry.SwapIsHonestIffNothingRefused`,
  `ToolRegistry.RefusedNameIsRemovedNextTime`). Its operation is stored at once: another owner's
  tool is from then on held to the refused tool's read or write class, unless the two are the same
  (`ToolRegistry.SwapKeepsOperationsIffRefusedAgree`, `ToolRegistry.RefusedNameIsReclassified`).
- A refresh that fails is not tried again: a registry is behind its latest change, whenever the loop
  blocks, exactly when the last refresh for it failed at its own listing or at one before it
  (`UpstreamWatcher.StaleWhenBlockedIffLastRefreshFailed`), and stays behind until the next change
  (`UpstreamWatcher.StaleUntilNextChange`).
- A denial can raise the trust score that is shown, because it ends the decay of idle time
  (`TrustScore.PenaltyRaisesShownScoreIff`).

## Model

| member | source | states |
|---|---|---|
| EditDistance.Levenshtein | navra-auth/src/tool_scanner.rs:912-927 | the two in-place rows with a swap per line return a number that some edit script attains and none beats |
| EditDistance.DistanceIsCheapest | navra-auth/src/tool_scanner.rs:912-927 | the recurrence is the least cost over all insert/delete/substitute scripts |
| EditDistance.NoScriptIsCheaper | navra-auth/src/tool_scanner.rs:912-927 | every script that turns `a` into `b` is at least as long as the distance |
| EditDistance.SomeScriptAttains | navra-auth/src/tool_scanner.rs:912-927 | a script of exactly that length exists, for every pair of texts |
| EditDistance.TriangleInequality | navra-auth/src/tool_scanner.rs:912-927 | d(a,c) <= d(a,b) + d(b,c) for all texts |
| EditDistance.DistanceZeroIffEqual | navra-auth/src/tool_scanner.rs:912-927 | the distance is zero exactly for equal texts |
| EditDistance.DistanceSymmetric | navra-auth/src/tool_scanner.rs:912-927 | the distance is symmetric |
| EditDistance.DistanceBounds | navra-auth/src/tool_scanner.rs:912-927 | the distance lies between the difference of the lengths and the longer length |
| Typosquatting.CheckTyposquatting | navra-auth/src/tool_scanner.rs:381-412 | a known name is reported exactly when it differs and is within `threshold` edits of the normalized name; each finding carries the cheapest edit count, Critical exactly for a confusable, High exactly for one edit |
| Typosquatting.NormalizeIdempotent | navra-auth/src/tool_scanner.rs:414-437 | normalizing twice is normalizing once |
| Typosquatting.NormalizedCharacters | navra-auth/src/tool_scanner.rs:414-437 | seven Cyrillic letters become the Latin ones they look like; a character goes exactly when it is a control character, a combining mark or invisible; all others stay |
| Typosquatting.LookalikesAreClose | navra-auth/src/tool_scanner.rs:381-412 | two names reported against one known tool are within twice the threshold of each other |
| Typosquatting.ClearedWithMargin | navra-auth/src/tool_scanner.rs:381-412 | a name that is clear with a margin stays clear after that many edits |
| Typosquatting.CriticalNeedsNormalKnownName | navra-auth/src/tool_scanner.rs:381-437 | some other name can be a confusable of a known name if and only if the known name is its own normal form |
| RugPull.Scanner.CheckRugPull | navra-auth/src/tool_scanner.rs:264-291 | reports a change exactly when the stored hash differs, then stores the new one; slices out of bounds exactly when it differs and the stored text is no whole 8 bytes long, before storing |
| RugPull.SameBytes | navra-auth/src/tool_scanner.rs:271-276 | gathering the differences of all byte pairs decides equality |
| RugPull.OwnHashesAreSliceable | navra-auth/src/tool_scanner.rs:281-285 | hashes that scanning itself stored never make a scan slice out of bounds |
| RugPull.SliceableIffBoundary | navra-auth/src/tool_scanner.rs:281-285 | the cut after 8 bytes of a stored text does not panic if and only if it ends at a character boundary of the text |
| RugPull.KeysApartIffSeparate | navra-auth/src/tool_scanner.rs:265 | two upstreams never share a key, whatever their tools, if and only if they differ and neither name continues the other after a colon |
| RugPull.Scanner.ScanTools | navra-auth/src/tool_scanner.rs:207-252 | scanning a list stores every tool's hash in order, and finds each changed against the store its predecessors left |
| RugPull.ReportedIffChanged | navra-auth/src/tool_scanner.rs:264-291 | over any history of one scanner with such names, a scan is reported if and only if that tool of that upstream hashed differently at its last scan |
| RugPull.SharedKeyIsReported | navra-auth/src/tool_scanner.rs:265 | without such names any tool of the longer-named upstream can be reported although it was never scanned before |
| RugPull.SharedKeyHidesChange | navra-auth/src/tool_scanner.rs:265 | without such names, for every tool of the longer-named upstream there is one of the other whose change goes unreported when the new definition was seen in between |
| HashFile.ReportsIffOriginDiffers | navra-server/src/setup/upstream.rs:36-41 | with one scanner per upstream and one file for all, opened and scanned in any order, a scan is reported if and only if the tool hashed differently at the scan its scanner's copy stems from |
| HashFile.ReliableIff | navra-auth/src/tool_scanner.rs:184-252 | with a collision-free hash, exactly the changes since the last scan are reported if and only if that copy stems from a scan with the last definition |
| HashFile.NoStaleWriterKeepsLastScan | navra-auth/src/tool_scanner.rs:247-249 | it stems from the last scan when no other scanner wrote the file since from a copy loaded before |
| HashFile.NotReopenedKeepsLastScan | navra-auth/src/tool_scanner.rs:184-202 | and when the scanner was not reopened since |
| HashFile.OverwrittenScanIsForgotten | navra-auth/src/tool_scanner.rs:247-249 | two upstreams on one file: after a restart no change of the second is reported |
| Utf8.TruncateStr | navra-protocol/src/lib.rs:115-124 | walking back to a boundary returns the truncated text |
| Utf8.TruncatedIsLongestPrefix | navra-protocol/src/lib.rs:101-124 | the truncated text is the longest prefix of whole characters within the bound, and the text itself if it fits |
| Utf8.BoundaryIffNoContinuation | navra-protocol/src/lib.rs:119-123 | a byte offset is a character boundary if and only if it is the end of the text or the byte there is no continuation byte |
| Utf8.EncodeInjective | navra-auth/src/manifest.rs:291-294 | equal UTF-8 bytes come from equal text |
| Utf8.WidthAndFirstByte | navra-auth/src/manifest.rs:291-294 | a character takes 1 to 4 bytes, with the limits of UTF-8; its first byte tells how many, and only the others are continuation bytes |
| CanonicalPrinter.CanonicalBytes | navra-auth/src/manifest.rs:272-325 | the recursive printer yields the UTF-8 of the canonical text of the value's contents, whose members stand in code-point order of their keys (CanonicalJson.MembersPrintInCodePointOrder) |
| CanonicalPrinter.ArrayBytes | navra-auth/src/manifest.rs:299-308 | the element loop prints the array's canonical text |
| CanonicalPrinter.ObjectBytes | navra-auth/src/manifest.rs:309-322 | sorting the keys and printing member by member gives the text of the object taken as a map, its members in code-point order of their keys |
| CanonicalPrinter.QuotedBytes | navra-auth/src/manifest.rs:279-298 | the character loop prints the quoted, escaped text |
| CanonicalPrinter.SortKeys | navra-auth/src/manifest.rs:310-311 | the keys come out ascending by code points, and so by bytes; distinct, and the same |
| CanonicalJson.SortedListIsUnique | navra-auth/src/manifest.rs:310-311 | a set of keys has exactly one sorted listing, so any sort will do |
| CanonicalJson.LeqOrder | navra-auth/src/manifest.rs:310-311 | the byte order of strings is total, antisymmetric and transitive |
| CanonicalJson.LeqIsCodePointOrder | navra-auth/src/manifest.rs:310-311 | one string is at most another if and only if it begins it or has the smaller character where they first differ |
| CanonicalJson.SortedKeysAscend | navra-auth/src/manifest.rs:310-311 | the keys of an object are printed ascending by code points |
| CanonicalJson.MembersPrintInCodePointOrder | navra-auth/src/manifest.rs:309-322 | of any two members of an object the one with the smaller key is printed first |
| CanonicalJson.SameContentsIffEquivalent | navra-auth/src/manifest.rs:309-322 | two values have the same contents if and only if they are the same but for the order in which objects, at every level, list their members |
| CanonicalJson.EscapesChosen | navra-auth/src/manifest.rs:281-296 | a character is escaped only if it must be, in two characters for five of them, else as lower-case hexadecimal |
| CanonicalParser.RoundTrip | navra-auth/src/manifest.rs:272-325 | reading the printed text gives back the contents, escapes included |
| CanonicalParser.ParsePrinted | navra-auth/src/manifest.rs:272-325 | the same inside a longer text: the reader stops exactly where the value ends |
| CanonicalParser.BytesDetermineContents | navra-auth/src/manifest.rs:272-325 | equal bytes if and only if equal contents, objects taken as maps at every level |
| CanonicalParser.SignedAlikeIffEquivalent | navra-auth/src/manifest.rs:272-325 | two values are signed alike if and only if they are the same but for member order |
| CanonicalParser.MemberOrderIsIrrelevant | navra-auth/src/manifest.rs:309-322 | permuting the members of an object leaves the bytes as they are |
| ObjectScan.ObjectsAreSuffixFree | navra-auth/src/manifest.rs:45-49 | no object's text is a proper suffix of another's, so texts run together can be taken apart from the end |
| Fingerprint.FingerprintInput | navra-auth/src/manifest.rs:41-51 | what the hasher is fed is the sorted tools' names and canonical definitions, in order |
| Fingerprint.SortIsStableSort | navra-auth/src/manifest.rs:43 | the sort orders by name, loses nothing, and keeps tools of one name in arrival order |
| Fingerprint.ToolsHashInCodePointOrder | navra-auth/src/manifest.rs:41-51 | of any two tools the one with the smaller name is hashed first, name before definition |
| Fingerprint.HashedBytesDetermineTools | navra-auth/src/manifest.rs:41-51 | equal hashed bytes if and only if the sorted tool lists have the same names and contents, although nothing separates the pieces |
| Fingerprint.OrderIsIrrelevantIffNamesAreKeys | navra-auth/src/manifest.rs:39-51 | every permutation hashes the same bytes if and only if tools of one name have one definition |
| KeyPinning.ManifestKeyStore.Check | navra-auth/src/manifest.rs:205-216 | first use exactly for an unpinned server, trusted exactly for the pinned key; only first use changes the pins |
| KeyPinning.ManifestKeyStore.VerifySignedManifest | navra-auth/src/manifest.rs:117-149 | invalid if and only if the signature is no hex, the key is unusable or the key did not sign the canonical bytes, and then the store is left alone; else first use, trusted or changed by what was pinned, and the new pins are those of one protocol step |
| KeyPinning.PinsAreFirstSigners | navra-auth/src/manifest.rs:117-149 | after any run a server is pinned to its old key, else to the signer of its first valid manifest, else not at all |
| KeyPinning.OutcomeFromHistory | navra-auth/src/manifest.rs:117-149 | every outcome of every run, read off the run |
| KeyPinning.PinsNeverChange | navra-auth/src/manifest.rs:205-216 | no run changes or removes a pin |
| KeyPinning.AcceptedOnlyUnderThePin | navra-auth/src/manifest.rs:109-149 | at most one first use per server; whatever was accepted was validly signed by the key pinned at the end |
| KeyPinning.RejectedLeavesNoTrace | navra-auth/src/manifest.rs:102-106 | deleting a rejected manifest from any run changes no earlier or later outcome and no pin |
| KeyPinning.TamperedContentIsRejected | navra-auth/src/manifest.rs:109-116 | if a signature fits at most one message, a changed manifest is rejected if and only if its contents changed |
| AuditChain.Blackbox.constructor | navra-core/src/blackbox.rs:105-121 | reopening resumes from the last row, or from the genesis value |
| AuditChain.Blackbox.Record | navra-core/src/blackbox.rs:186-242 | sequence number and previous hash move on whether or not the row is stored; a stored row has the call's own columns, its arguments and result filtered first and then cut to at most 4096 bytes of whole characters, the previous hash, and the hash of its text |
| AuditChain.RunHoldsItsCalls | navra-core/src/blackbox.rs:201-242 | over every run the table has one row per inserted call, in order: own columns unchanged, arguments and result the longest prefixes within 4096 bytes of the filtered texts |
| AuditChain.PreimageSpelledOut | navra-core/src/blackbox.rs:618-631 | the hashed text of one row, and the 64 characters before the first |
| AuditChain.Blackbox.VerifyChain | navra-core/src/blackbox.rs:245-290 | returns the length of the longest prefix of good links and the number of the first bad row, if any, on any table |
| AuditChain.PreimageHeader | navra-core/src/blackbox.rs:618-631 | sequence number, previous hash and remaining text can be read back from any preimage |
| AuditChain.PreimageInjective | navra-core/src/blackbox.rs:618-631 | rows whose agent, tool, args and outcome are free of the separator are told apart by their preimages, whatever the result holds |
| AuditChain.OneReadingIffPipeFree | navra-core/src/blackbox.rs:618-631 | an entry's text has one reading if and only if none of its fields holds the separator |
| AuditChain.SplicedLogVerifiesIff | navra-core/src/blackbox.rs:245-290 | whatever the hash is: a good log with any part replaced verifies if and only if the new rows link up with what is kept before them and end in the hash the kept rest links to |
| AuditChain.TamperingIsSilentIffSameTexts | navra-core/src/blackbox.rs:245-290 | with a collision-free hash, any other log ending in the same hash verifies if and only if it has the same numbers, hashes and texts row by row |
| AuditChain.KeptHashPinsPrefix | navra-core/src/blackbox.rs:245-290 | in a verifying log a row that kept its hash stands where it stood, after rows with the same texts |
| AuditChain.TamperedLogVerifiesIffForged | docs/content/docs/guides/audit.md:73-76 | any tampered log verifies if and only if it is the log up to some row, with the same texts, followed by rows that were all hashed afresh and link up |
| AuditChain.SpliceIsSilentIff | docs/content/docs/guides/audit.md:73-76 | replacing any part before a kept rest is silent if and only if the texts are the same; replacing the end is silent if and only if the new rows link up and are numbered on |
| AuditChain.DeletionIsSilentIffAtEnd | docs/content/docs/guides/audit.md:73-76 | deleting rows is silent if and only if they are the last ones |
| AuditChain.InsertionIsSilentIffAppended | docs/content/docs/guides/audit.md:73-76 | inserting rows, the others left as they are, is silent if and only if they are appended, numbered on and link up |
| AuditChain.RenumberedInsertionIsNoticed | docs/content/docs/guides/audit.md:73-76 | inserting rows in the middle with the rest renumbered in any way is never silent |
| AuditChain.RearrangementIsSilentIffPrefix | docs/content/docs/guides/audit.md:73-76 | rows of a good log exchanged, repeated or left out, and renumbered at will, verify if and only if they are the log up to some row |
| AuditChain.ReorderingIsNoticed | docs/content/docs/guides/audit.md:73-76 | exchanging the contents of rows, each position keeping its number, verifies if and only if nothing changed |
| AuditChain.ReplacedRowIsSilentIff | navra-core/src/blackbox.rs:635-659 | one row replaced by any other read at the same place, in any column, is silent if and only if number, hashes and text stay or, for the last row, the new row is numbered on and hashed afresh on the old previous hash |
| AuditChain.MovedRowIsNoticed | navra-core/src/blackbox.rs:248 | a row replaced by one whose number puts it elsewhere is never silent |
| AuditChain.RunKeepsOrder | navra-core/src/blackbox.rs:186-242 | whatever inserts fail and however often the log is reopened, its numbers increase |
| AuditChain.EveryEditIsNoticedIff | docs/content/docs/guides/audit.md:73-76 | every change of a hashed column of a row is noticed if and only if the row is not the last and free of separators; changes of the other columns never are |
| AuditChain.LastHashBindsLog | navra-core/src/blackbox.rs:245-290 | two verified logs ending in one hash have the same length and the same row texts, or exhibit a collision or a text hashing to the genesis value |
| AuditChain.LastHashBindsFields | navra-core/src/blackbox.rs:245-290 | given an injective hash that misses the genesis value, such logs without separators agree on every hashed field |
| AuditChain.HealthyRunVerifies | navra-core/src/blackbox.rs:186-242 | after any run in which no insert follows a lost one, the log verifies with numbers 1, 2, 3, ... |
| AuditChain.RunVerifiesIffNoInsertAfterLoss | navra-core/src/blackbox.rs:186-290 | a run of records, failed inserts and reopenings leaves a verifying log if and only if no insert succeeded right after a failed one |
| Quota.Bucket.constructor | navra-auth/src/quota.rs:33-42 | a new bucket is full and refills one bucket per window, rounded down |
| Quota.ElapsedMeans | navra-auth/src/quota.rs:61-69 | elapsed time is whole microseconds, kept to 64 bits, and zero when the clock stands back |
| Quota.Bucket.Refill | navra-auth/src/quota.rs:61-69 | the new state, with 64-bit saturation and the floor |
| Quota.Bucket.TryConsume | navra-auth/src/quota.rs:45-53 | refills, then takes one token exactly when there is one |
| Quota.Bucket.Remaining | navra-auth/src/quota.rs:56-59 | refills and counts whole tokens |
| Quota.QuotaEngine.Check | navra-auth/src/quota.rs:93-104 | charges the agent's own bucket and no other; creates it, with the limit of that call, on first limited use; unlimited sets are never charged |
| Quota.QuotaEngine.Remaining | navra-auth/src/quota.rs:107-113 | refills and reports the agent's own bucket, and changes no other |
| QuotaBounds.IntervalBound | navra-auth/src/quota.rs:45-69 | over any stretch of any run: admitted calls, scaled, are at most one full bucket plus what the elapsed time is worth, floors and saturation included |
| QuotaBounds.WindowBound | navra-auth/src/quota.rs:33-69 | any stretch of one window admits at most twice `max_calls` |
| QuotaBounds.WindowCanBeExceededIff | navra-auth/src/quota.rs:33-69 | a stretch shorter than a window can admit more than `max_calls` if and only if its refill is worth a call |
| QuotaBounds.ServesForever | navra-auth/src/quota.rs:33-69 | a bucket keeps its limit, its rate and its bounds over every run |
| QuotaBounds.RefillDrift | navra-auth/src/quota.rs:61-69 | k refills of one wait never give more than one refill of the whole, and lose at most k - 1 scaled units, cap included |
| QuotaBounds.AskingOftenCostsTokens | navra-auth/src/quota.rs:56-69 | the same of the bucket itself over any run of queries, while products stay inside 64 bits: every extra query costs at most one unit and one dropped microsecond |
| QuotaBounds.PollingStarvesIffGapsAreWorthless | navra-auth/src/quota.rs:45-69 | over any run of calls and queries a bucket without a whole token stays as it is and refuses every call if and only if no gap is worth one unit, while products stay inside 64 bits |
| QuotaBounds.AdmittedAfterLongWait | navra-auth/src/quota.rs:45-69 | a caller that waits long enough between refills is admitted |
| QuotaBounds.DrainedBucketRecoversIff | navra-auth/src/quota.rs:33-69 | a drained bucket ever admits again if and only if the limit allows a call and the window does not exceed the scaled bucket |
| QuotaRuns.AgentsAreMeteredAlone | navra-auth/src/quota.rs:93-113 | in any run of calls and queries an agent's bucket and allowed calls are those of a bucket of its own, created by its first limited call and fed only its own limited calls and queries |
| QuotaRuns.AgentWindowBound | navra-auth/src/quota.rs:91-113 | from any point of any such run, for one window of its limit, an agent is allowed at most twice the calls of that limit |
| PromptBudget.ContextBudget.SetSystemPrompt | navra-cognitive/src/budget.rs:46-48 | locks the estimate of the system prompt |
| PromptBudget.ContextBudget.Available | navra-cognitive/src/budget.rs:51-55 | with prompt and reserve it adds up to the total exactly, or is zero when they do not fit |
| PromptBudget.ContextBudget.Split | navra-cognitive/src/budget.rs:62-67 | the shares add up to what is available; history has 60% of it rounded down |
| PromptBudget.SharesAddUp | navra-cognitive/src/budget.rs:51-67 | system prompt, reserve, history share and context share add up to the window when prompt and reserve fit |
| PromptBudget.TruncationFits | navra-cognitive/src/budget.rs:80-108 | a truncated text estimates within its budget with its notice, for texts under 10^12 bytes |
| PromptBudget.TruncationFitsIff | navra-cognitive/src/budget.rs:86-108 | a truncated text fits if and only if the bytes left out have at most 12 digits and one more for every byte given up to end at a sentence or line |
| PromptBudget.TruncationKeeps | navra-cognitive/src/budget.rs:80-108 | what truncation keeps: a text in budget whole; nothing for budgets under 50 bytes; else the text up to its last '. ', else '.' before a line break, else line break among the first bytes, else all of those, followed by the notice; a panic if and only if those bytes end inside a character |
| PromptBudget.AsciiNeverPanics | navra-cognitive/src/budget.rs:97 | ASCII text is never sliced inside a character |
| PromptBudget.NoticeLength | navra-cognitive/src/budget.rs:107 | the notice takes 28 bytes and the digits of its number |
| PromptBudget.AssembleFull | navra-cognitive/src/weaver.rs:146-173 | context is wrapped and cut to its share, the prefix never; the estimate is that of both with a blank line between, at most prefix, share and one token |
| PromptBudget.WindowIsKept | navra-cognitive/src/weaver.rs:146-173 | prompt, history share and output reserve exceed the window by at most one token |
| PromptBudget.ExtraTokenIff | navra-cognitive/src/weaver.rs:168-173 | a prompt with context costs one token more than its two parts if and only if they were rounded up by less than the blank line, and 32 bits hold the sum |
| Decimal.DigitCount | navra-cognitive/src/budget.rs:106-107 | a number has at most k digits if and only if it is below 10^k |
| Decimal.DigitsInjective | navra-core/src/blackbox.rs:627-630 | different sequence numbers print differently |
| Decimal.DigitsSpellNumber | navra-core/src/blackbox.rs:627-630 | the digits spell the number, most significant first, without leading zeros |
| PromptWeaver.InjectAtPosition | navra-cognitive/src/weaver.rs:310-361 | appends whole entries of its position in order while the recounted budget lasts, then one cut entry |
| PromptWeaver.WholeWhenTheyFit | navra-cognitive/src/weaver.rs:321-360 | prompts of up to 8000 bytes that fit in the budget together appear whole under their names, in order |
| PromptWeaver.PushedBytes | navra-cognitive/src/weaver.rs:321-360 | one insertion stays within its budget; at most one fragment, cut inside the header, escapes the recount |
| PromptWeaver.CapInvariant | navra-cognitive/src/weaver.rs:310-361 | over any sequence of insertions, sections that carry the header stay within the cap; the total grows with the number of header-less fragments |
| PromptWeaver.FragmentIffGap | navra-cognitive/src/weaver.rs:321-360 | an insertion leaves a header-less fragment if and only if one of its entries meets a remaining budget of 1 to 18 bytes |
| PromptWeaver.TotalWithinCapIff | navra-cognitive/src/weaver.rs:301-361 | over any sequence of insertions, all upstream text stays within the cap if and only if no insertion with prompts follows one that met such a budget; it is never more than 18 bytes over per later insertion |
| PromptWeaver.PrefixKeepsCapIff | navra-cognitive/src/weaver.rs:207-294 | the bytes of a prefix are the persona's own and the upstream total, which keeps the cap if and only if no later position with prompts follows such a budget, and is never more than 54 bytes over |
| PromptWeaver.TotalCanPassTheCap | navra-cognitive/src/weaver.rs:207-361 | a list of five prompts whose prefix passes the cap |
| PromptWeaver.BuildCacheablePrefix | navra-cognitive/src/weaver.rs:207-294 | the persona's sections appear whole and in order between the four insertions, and the recount among them keeps the cap |
| PromptWeaver.SectionsSpelledOut | navra-cognitive/src/weaver.rs:207-294 | without upstream prompts the sections are the persona's texts under their headings, in order, each there if it has a text |
| PromptWeaver.UpstreamIsPlaced | navra-cognitive/src/weaver.rs:207-294 | the four insertions stand right before the mandate, right after it, after the heuristics, and at the end |
| DiscoveryBounds.Enforce | navra-core/src/upstream_module.rs:87-161 | accepts if and only if count, depths, descriptions and total size allow it in the given mode. Accepted: no chain of nested containers in a schema is longer than the limit, the total fits, nothing over a limit in reject mode, and the tools are the first ones as they were but for cut descriptions. Refused: the violation named is real, and the first in the order of the checks |
| DiscoveryBounds.DepthIsLongestNesting | navra-core/src/upstream_module.rs:166-177 | the computed depth is the length of the longest chain of nested containers |
| DiscoveryBounds.DepthByShape | navra-core/src/upstream_module.rs:166-177 | a scalar has no depth, an empty array or object depth one, any other one more than its deepest element |
| DiscoveryBounds.TruncatedIsStillTooLong | navra-core/src/upstream_module.rs:124-136 | a truncated description is 11 to 14 bytes over the limit |
| DiscoveryBounds.AcceptedToolsMeetTheBoundsIff | navra-core/src/upstream_module.rs:79-161 | the registered tools meet the description limit, and would pass reject mode, if and only if none was truncated |
| ToolRegistry.Registry.SwapUpstreamTools | navra-core/src/server/handlers.rs:2176-2243 | the loops compute the swap: names on the module's list go, its new tools come unless the name is taken, the list names all of them |
| ToolRegistry.ToolsAfterSwap | navra-core/src/server/handlers.rs:2190-2214 | which names are registered after a swap, and as what: what is not on the old list as before, and the first offer of every free name |
| ToolRegistry.OperationsAndListsAfterSwap | navra-core/src/server/handlers.rs:2215-2243 | the operations that came with the tools win over those kept; the list is the offered names in order, no other list changes |
| ToolRegistry.SwapKeepsOthersIffHonest | navra-core/src/server/handlers.rs:2170-2243 | the tools of other modules and of the gateway stay registered if and only if the module's list names none of them |
| ToolRegistry.SwapKeepsOperationsIffRefusedAgree | navra-core/src/server/handlers.rs:2215-2225 | they stay held to the same operation if and only if every refused name came with the operation already stored |
| ToolRegistry.SwapKeepsOthersIff | navra-core/src/server/handlers.rs:2170-2243 | a swap changes neither if and only if both hold |
| ToolRegistry.SwapIsHonestIffNothingRefused | navra-core/src/server/handlers.rs:2190-2243 | the list a swap leaves names only the module's tools if and only if nothing was refused, when the module's own tools were listed |
| ToolRegistry.SwapKeepsEverythingListed | navra-core/src/server/handlers.rs:2192-2243 | whoever had all its tools on its list before any swap has them there after it |
| ToolRegistry.ModuleRegistersWhole | navra-core/src/server/builder.rs:257-286 | a module registers every tool as defined, beside all that was there, and panics if and only if a name is taken or comes twice |
| ToolRegistry.RegisteredModuleIsSound | navra-core/src/server/builder.rs:257-286 | a module registered at build time starts with a list that names exactly its tools, and no other list suffers |
| ToolRegistry.BuiltModuleIsSoundIff | navra-core/src/server/builder.rs:631-745 | after the gateway's own tools are put in, a module's list is still exact if and only if it names none of them |
| ToolRegistry.NoRefusalKeepsEveryone | navra-core/src/server/handlers.rs:2170-2243 | in any run without refusals, of modules whose lists are exact at the start and whose tools are classified as discovery does, the lists stay exact and no swap changes a tool, or its operation, of another module or of the gateway |
| ToolRegistry.RefusedNameIsRemovedNextTime | navra-core/src/server/handlers.rs:2197-2243 | a concrete run in which an upstream is refused the name of a gateway tool and removes that tool at its next refresh |
| ToolRegistry.RefusedNameIsReclassified | navra-core/src/server/handlers.rs:2215-2225 | a concrete swap in which an upstream is refused the name of a write tool, which is a read tool from then on |
| UpstreamWatcher.Watcher.Run | navra-core/src/upstream_module.rs:826-875 | under any interleaving: accepted events are taken in arrival order, resource updates forwarded once each in that order, the loop blocks with nothing pending, and a registry is stale there exactly when the last refresh for it failed |
| UpstreamWatcher.FilterKeepsOrder | navra-core/src/upstream_module.rs:750-765 | the handler lets notifications through one by one, in order |
| UpstreamWatcher.LetThrough | navra-core/src/upstream_module.rs:750-765 | it lets through every list change, and a resource update if and only if its URI has at most 4096 bytes |
| UpstreamWatcher.Watcher.Recv | navra-core/src/upstream_module.rs:828-831 | waits for the next event in order; none only when the channel is closed and empty |
| UpstreamWatcher.Watcher.TryRecv | navra-core/src/upstream_module.rs:854 | takes the next event in order if there is one |
| UpstreamWatcher.Watcher.Drain | navra-core/src/upstream_module.rs:848-863 | after the sleep every waiting event raises its flag or is forwarded; none is swallowed |
| UpstreamWatcher.Watcher.RefreshOnce | navra-core/src/upstream_module.rs:877-933 | a flagged registry is replaced if and only if its listing and every flagged one before it succeed; Ok means all were |
| UpstreamWatcher.ChangeIsRefreshedBeforeBlocking | navra-core/src/upstream_module.rs:826-875 | every list change taken has a refresh started with its flag, after it, before the loop blocks again |
| UpstreamWatcher.StaleWhenBlockedIffLastRefreshFailed | navra-core/src/upstream_module.rs:864-873 | whenever the loop blocks, a registry is behind its latest change if and only if the last refresh flagged with it had a failing flagged listing at or before its own |
| UpstreamWatcher.StaleUntilNextChange | navra-core/src/upstream_module.rs:864-932 | such a registry stays behind at every later block until another change of its kind is taken |
| BackEdges.BackEdgeTracker.constructor | navra-flow/src/backedge.rs:91-97 | a new tracker has counted nothing |
| BackEdges.BackEdgeTracker.RecordActivation | navra-flow/src/backedge.rs:110-116 | raises one edge's count and the total by one, and returns the count; the total remains the sum of the counts |
| BackEdges.BackEdgeTracker.Attempt | navra-flow/src/executor.rs:447-452 | an edge is recorded exactly when it should activate |
| BackEdges.RequeuedIff | navra-flow/src/backedge.rs:99-116 | at any point of any run an edge re-queues if and only if its condition holds, its pair was re-queued less often than the edge allows, and all pairs less often than the global maximum |
| BackEdges.ConditionsMean | navra-flow/src/backedge.rs:61-72 | what each condition asks of a result: a score below the threshold or none; some note; the pattern anywhere in the output; nothing |
| BackEdges.SumOfUpdate | navra-flow/src/backedge.rs:110-116 | changing one count changes the sum of all by the difference |
| BackEdges.CountsStayLimited | navra-flow/src/backedge.rs:102-116 | in any run, counts stay under their pair's largest limit and add up to the total, which stays under the global maximum |
| BackEdges.RequeuesAreBounded | navra-flow/src/backedge.rs:99-116 | a flow re-queues at most the global maximum and at most the sum of the limits over distinct pairs, so its loops end |
| BackEdges.LimitsAreDeclared | navra-flow/src/backedge.rs:99-116 | the limit of a pair is one that some edge declares |
| BackEdges.LoopRunsToItsLimit | navra-flow/src/backedge.rs:102-116 | the bound is met: a loop whose condition holds re-queues exactly until the smaller of its two limits |
| Blackboard.Blackboard.Publish | navra-flow/src/blackboard.rs:56-101 | refused exactly when the key is new and the board is full; otherwise the entry gets the next version and one more author |
| Blackboard.Blackboard.Read | navra-flow/src/blackboard.rs:107-134 | returns the entry and taints the reader with its label: untrusted, secret or private from then on exactly if the reader or the label was; a missing key taints nothing |
| Blackboard.TaintTracker.Absorb | navra-auth/src/ifc/mod.rs:94-96 | the new taint is the least label above the old one and the absorbed one: untrusted, secret or private exactly if one of them is, public exactly if both are |
| Blackboard.BoardAgreesWithHistory | navra-flow/src/blackboard.rs:56-101 | version, provenance, value, label and author of every key are those of its accepted publications; the size never exceeds the limit |
| Blackboard.JoinIsLeastUpperBound | navra-protocol/src/label.rs:86-99 | the join is the least upper bound of two labels |
| Blackboard.TaintIsJoinOfReads | navra-flow/src/blackboard.rs:103-134 | a reader's taint is the least label above its initial one and all labels it read |
| Blackboard.TaintByName | navra-flow/src/blackboard.rs:103-134 | after any history a reader is Untrusted, at Secret, or at Pii or above, if and only if its initial label or one it read is; and at Public if and only if all are |
| Blackboard.TaintOnlyRises | navra-flow/src/blackboard.rs:103-134 | taint only rises as a history goes on |
| TrustScore.Session.RecordSuccess | navra-auth/src/trust_score.rs:70-89 | the new score and gain window |
| TrustScore.Session.RecordDenial | navra-auth/src/trust_score.rs:91-96 | the new score, never below zero |
| TrustScore.Session.RecordSafetyTrigger | navra-auth/src/trust_score.rs:98-103 | the new score, never below zero |
| TrustScore.Session.CurrentState | navra-auth/src/trust_score.rs:105-121 | Suspended exactly under the one threshold, ReadOnly exactly from there to the other |
| TrustScore.EverySignalEndsIdling | navra-auth/src/trust_score.rs:70-103 | every signal, counted or not, ends the idle time |
| TrustScore.UncappedClimb | navra-auth/src/trust_score.rs:70-89 | with the gain cap turned off the score is the baseline and one step per success, up to the maximum |
| TrustScore.NormalReachableIff | navra-auth/src/trust_score.rs:70-121 | some run of signals can make a session show Normal at a time if and only if baseline plus one window's gain per whole minute, and one more, capped at the maximum, reaches both thresholds |
| TrustScore.ClimbReaches | navra-auth/src/trust_score.rs:70-89 | the bound of the ramp is attained, in every minute |
| TrustScore.ScoreAndGainInRange | navra-auth/src/trust_score.rs:70-103 | over any run the stored score stays in [0, max] and a gain window under its cap |
| TrustScore.RestartsTakeMinutes | navra-auth/src/trust_score.rs:71-81 | every restart of the gain window costs a minute |
| TrustScore.RestartsBoundScore | navra-auth/src/trust_score.rs:70-103 | the score is at most the baseline plus one cap per restart plus the current gain |
| TrustScore.RampBound | navra-auth/src/trust_score.rs:70-103 | T seconds after creation the score is at most baseline + (T/60 + 1) windows of the cap rounded up to whole steps, at most cap + delta - 1, whatever mix of signals arrived |
| TrustScore.ShownScoreIsBelowStored | navra-auth/src/trust_score.rs:105-110 | the shown score is never above the stored one, nor negative |
| TrustScore.PenaltyRaisesShownScoreIff | navra-auth/src/trust_score.rs:91-110 | a penalty raises the shown score if and only if the decay it ends exceeds it and the score can bear it |
| TrustScore.DenialCanRaiseShownScore | navra-auth/src/trust_score.rs:35-110 | with the default configuration a denial after two idle hours takes the shown score from 380 to 450 |

## Left out

- SHA-256, Ed25519, hex decoding and key decoding are function parameters; their internals and the library behind DID parsing are not part of this model.
- Key ordering and tool sorting are insertion sorts here; the standard library's sort is only known to be a (stable) sort, which is what the lemmas use.
- JSON numbers are tokens of number characters; how the JSON library prints a float is not part of this model.
- Serializing a tool is assumed to succeed and to give an object that carries the tool's name; the type itself is declared outside the repository. The null fallback and the 64-bit failure size are left out.
- Duplicate keys cannot occur in a JSON object of the library, so well-formed values have none.
- 64-bit and 32-bit wrap-around of audit sequence numbers, blackboard versions, back-edge counters and the discovery byte total: these are unbounded here.
- AuditChain.Blackbox.Record: does not model the clock, the lock or why an insert fails; success is an input.
- AuditChain: deleting expired rows removes the start of the chain, after which whole-chain properties do not apply; negative row numbers are left out.
- Quota: `windowSecs` is required positive because the source divides by it; concurrent callers are serialized by the source's lock.
- PromptBudget: the factors 3.5 and 0.6 are exact fractions; floating-point rounding is not modelled.
- PromptBudget.AssembleFull: models only the budget part; persona lookup, output schemas and the choice of the context limit are left out. No result stands for the panic of slicing inside a character.
- PromptWeaver.BuildCacheablePrefix: the texts of directives, heuristics and examples are inputs, and the final join of the sections is left out.
- Compaction of conversation history, skill-card selection and the other scanner heuristics (patterns, keywords, hidden characters, schema fields): only easy members.
- DiscoveryBounds.Enforce: the size of a serialized tool is a parameter; log messages are left out.
- ToolRegistry.Registry.SwapUpstreamTools: handlers, the resource classification map (handled like the operations map), locks between the four updates and the audit event are left out; each tool's owner is recorded where the source stores a handler, the gateway itself for tools that no module registered.
- The swaps of prompts and resources repeat the shape of the tool swap.
- UpstreamWatcher.Watcher.RefreshOnce: a listing either succeeds or fails as an input. A `tools/list` request error yields an empty list inside discovery, which counts as success here.
- UpstreamWatcher: the debounce sleep has no duration; what arrives meanwhile is in the next batch.
- BackEdges: scores are exact numbers, so a NaN score or threshold is not modelled; parsing of condition strings is left out.
- TrustScore: calls are in sequence; racing threads between the source's separate load and store are left out, and so is overflow of the decay product.
- Blackboard: key listing, snapshots, the causal node id and declassification witnesses are left out.
- KeyPinning.ManifestKeyStore.Check: saving the pins to disk is an exact copy and left out, as is the optional-signature entry point.
- HashFile: a file that cannot be read, parsed or written is left out, and so is a scan that is cut short; reading the file back gives what was written.
- The session backends, process table, agent token quota, metrics, signals, hibernation and action risk levels: one-step facts only.
