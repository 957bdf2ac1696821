# Verified model of the file-sharing service

This project models the parts of the service whose correctness depends on more than one function or one request, and
proves what they keep over all inputs and all runs. `dafny verify dfyconfig.toml` checks everything.

## What is modelled

**Addresses** (`Ipv4`, `Ipv6`, `Ipv6Text`, `Ipv6Spelling`, `IpAddress`, `IpSurroundings`, `IpDenoted`, `AddressGrammar`).
Access lists compare addresses as strings, so a normaliser must give one text per address. The parser is a function from
text to four octets or eight 16-bit groups, and what it accepts is proved to be a grammar; the printer is specified by the
canonical text of RFC 5952 and the loops of `serializeIpv6` are proved against it. Reading undoes printing, printing is
injective, and normalisation is idempotent on every input.

**Chunked upload** (`LocalUpload`, `UploadSafety`, `UploadNames`, `UploadClient`, `UploadProgress`, `S3Upload`, `S3Progress`,
`S3Late`, `SingleChunk`). The server and the browser loop are two parties. Requests are lost, repeated, delayed and
reordered; replies are lost; temporary files are cleaned up; files are removed; shares are locked and opened again; other
uploads of the same share run in between. One `create` call is one atomic step.

**Access to a share** (`ShareAccess`, `ShareRuns`, `ViewLimit`, `ShareSecurity`). A visit reads a snapshot, may then run the
transaction that claims an address, and may then write the view counter; other visits run between these steps. Patches of
the access rule become database operations that are compared with a field-by-field merge.

**Time** (`RateLimiter`, `Timespan`, `Config`, `ConfigKeys`, `Retention`, `Tokens`, `TokenLifetimes`). The sliding-window
limiter is compared with one that never forgets; configuration updates keep the editable period within the retention
period, so the clean-up job spares editable shares; deleting expired tokens is a step nobody can observe, and each kind of
token works exactly until its expiry, its use or its revocation.

**Small loops** (`Usernames`, `FileSample`, `ApiTokens`), over `Text`, `Numerals` and `Sets`, which give the string and number
operations of the language their exact meaning with their inverse laws.

Code that changes state step by step is a class or a method with a loop, proved equal to a function of the old state; the
lemmas are about that function.

## Where the code does less than it promises

Each of these is a theorem with the exact condition, and a concrete input that shows the failure.

* An IPv4-mapped address with an upper-case prefix (`::FFFF:1.2.3.4`) keeps its IPv6 text while the lower-case spelling
  becomes the dotted quad, so one address has two normal forms (`IpDenoted.OneFormPerAddress`,
  `IpDenoted.UpperCasePrefixDiffers`).
* If a file gets recorded while the client does not see the reply, because the reply is lost or a late copy of the last
  chunk arrives on its own, the upload loop never returns true, with either storage back end: the file is sent again and
  again and refused each time (`UploadProgress.UploadOutcome`, `UploadProgress.LostFinalReply`,
  `UploadProgress.LateFinalChunk`, `S3Progress.UploadOutcome`). Exactly the files of a single chunk cannot get there
  (`SingleChunk.SingleChunkIsSafe`, `SingleChunk.S3SingleChunkIsSafe`).
* The S3 service appends whatever part arrives to the session of the file. Late copies of the client's own requests can
  make it complete and record an upload that lacks parts; files of at most two chunks are safe (`S3Late.LateCopiesHarmless`,
  `S3Late.LateLastLosesParts`).
* Visits that overlap can all be admitted although fewer views are left, and views go uncounted. The limit holds in all
  interleavings if and only if no more visits want to be counted than views are left (`ViewLimit.LimitHoldsExactly`,
  `ShareRuns.OverlapExceedsLimit`); the counter is exact in all interleavings if and only if no two visits want
  to be counted or the limit is reached already (`ViewLimit.CounterExactly`), and on one run if and only if no visit writes
  it from an outdated snapshot (`ShareRuns.CounterBounds`).
* A configuration key with more than two parts (`share.expiredEditablePeriod.x`) addresses the variable of its first two
  parts but is laid over the validated map under its full name, so the check of the two periods does not see the new
  value. Which lists of keys are safe is decided exactly (`ConfigKeys.SafeKeysDecide`, `Config.ExactKeysDecide`).
* The validation of a period and the function that reads it elsewhere disagree on unusual white space: `30  days` (two
  blanks) passes but is then read without a unit (`Timespan.ReadersAgree`, `Retention.TwoBlanksReadDifferently`).

## Model

| member | source | states |
|---|---|---|
| Ipv4.ReadQuad | frontend/src/utils/ipAddress.util.ts:1-26 | an accepted text denotes four numbers below 256 |
| Ipv4.QuadSpelling | frontend/src/utils/ipAddress.util.ts:1-21 | four texts of one to three digits, leading zeros allowed, joined by dots are read as the octets they denote |
| Ipv4.ReadPrintedQuad | frontend/src/utils/ipAddress.util.ts:1-26 | reading the printed form of any four octets gives them back, and the printed form is its own normal form |
| Ipv4.SameQuadText | frontend/src/utils/ipAddress.util.ts:1-26 | two dotted quads get the same text if and only if they denote the same octets |
| Ipv4.QuadPlain | frontend/src/utils/ipAddress.util.ts:18-25 | the four pieces of a printed quad are decimal numerals, of the octets' values, without a zero in front |
| AddressGrammar.QuadExactly | frontend/src/utils/ipAddress.util.ts:1-26 | a text is accepted as a dotted quad if and only if it is four groups of one to three digits, each of value up to 255, joined by dots |
| Numerals.PrintShape | frontend/src/utils/ipAddress.util.ts:65 | a printed number has no zero in front unless it is zero, and no upper-case digit |
| Numerals.PrintParse | frontend/src/utils/ipAddress.util.ts:65 | it is the only text of that kind with its value: printing undoes reading |
| Numerals.PlaceValue | frontend/src/utils/ipAddress.util.ts:58 | digits count by their place, so leading zeros change nothing |
| Numerals.DigitValues | frontend/src/utils/ipAddress.util.ts:52-58 | which characters are decimal and hexadecimal digits, and what each is worth |
| Text.LowerLetters | frontend/src/utils/ipAddress.util.ts:120 | lower-casing turns each of the 26 letters into its lower-case one and leaves everything else |
| Text.SpaceCodes | frontend/src/utils/ipAddress.util.ts:163 | the code points that trimming removes |
| Ipv6.ParseIpv6Part | frontend/src/utils/ipAddress.util.ts:28-62 | the loop with its early returns computes the groups of a part, embedded dotted quads included, and fails exactly when some segment denotes nothing |
| Ipv6.BadSegment | frontend/src/utils/ipAddress.util.ts:35-56 | one segment that denotes nothing makes the whole part fail, wherever it stands |
| Ipv6.ReadAddressRange | frontend/src/utils/ipAddress.util.ts:119-154 | every accepted text denotes exactly eight groups of 16 bits, so the final range check never refuses |
| Ipv6.GapStandsForZeros | frontend/src/utils/ipAddress.util.ts:133-152 | a `::` stands for at least one group, all of them zero, with the groups of both sides in place around it |
| Ipv6Text.BestRunFrom | frontend/src/utils/ipAddress.util.ts:70-89 | the recursive search meets the definition of the first among the longest runs of zeros |
| Ipv6Text.BestRunUnique | frontend/src/utils/ipAddress.util.ts:70-89 | any run that meets the definition is the one the recursive search finds |
| Ipv6Text.FindLongestZeroRun | frontend/src/utils/ipAddress.util.ts:67-89 | the single-pass loop ends with the leftmost longest run of zeros, and with length 0 only when no group is zero |
| Ipv6Text.PrintGroups | frontend/src/utils/ipAddress.util.ts:91-116 | the loop that jumps over the chosen run prints the groups around it with `::` between, and without a run prints all groups |
| Ipv6Text.SerializeIpv6 | frontend/src/utils/ipAddress.util.ts:64-117 | both loops together produce the canonical text |
| Ipv6Text.CollapseNothing | frontend/src/utils/ipAddress.util.ts:116 | the final replacement of three or more colons leaves every text without three colons in a row unchanged |
| Ipv6Text.RunTextShape | frontend/src/utils/ipAddress.util.ts:91-116 | a printed text never has three colons in a row, has at most one `::`, no upper-case letter, and splits into the two printed sides |
| Ipv6Text.CompressedRun | frontend/src/utils/ipAddress.util.ts:64-117 | the text has a `::` if and only if two neighbouring groups are zero, and then it leaves out the leftmost longest run (RFC 5952, sections 4.2.1 to 4.2.3) |
| Ipv6Text.ReadCanonical | frontend/src/utils/ipAddress.util.ts:28-156 | parsing undoes printing for every list of eight 16-bit groups |
| Ipv6Text.CanonicalInjective | frontend/src/utils/ipAddress.util.ts:64-117 | two addresses have the same text if and only if they are equal |
| Ipv6Text.NormalizeIpv6 | frontend/src/utils/ipAddress.util.ts:119-156 | the method with all its refusals answers the canonical text of the address the input denotes, and nothing for other inputs |
| Ipv6Text.SameNormalForm | frontend/src/utils/ipAddress.util.ts:119-156 | two accepted texts get the same normal form if and only if they parse to the same eight groups |
| AddressGrammar.AddressExactly | frontend/src/utils/ipAddress.util.ts:28-154 | a text is accepted as an IPv6 address, of given groups, if and only if in lower case it is a list of segments of eight groups or two lists of at most seven around one `::`, a segment being one to four hexadecimal digits or a dotted quad |
| AddressGrammar.AddressPlain | frontend/src/utils/ipAddress.util.ts:64-117 | the pieces of a printed address are empty at the `::` and otherwise one to four lower-case digits without a zero in front (RFC 5952, sections 4.1 and 4.3) |
| Ipv6Spelling.FullSpelling | frontend/src/utils/ipAddress.util.ts:119-156 | eight groups in any spelling, letter case and leading zeros free, get the canonical text of their address |
| Ipv6Spelling.GapSpelling | frontend/src/utils/ipAddress.util.ts:119-156 | so do up to seven groups around a `::`, at either end or in between, with zeros for the missing groups |
| IpAddress.NormalizeIpAddress | frontend/src/utils/ipAddress.util.ts:158-198 | the chain of reassignments and branches computes the specified normal form of every value, missing and blank ones included |
| IpAddress.FixedPoints | frontend/src/utils/ipAddress.util.ts:158-198 | a string is its own normal form if and only if it is a printed dotted quad or a canonical IPv6 text |
| IpAddress.Idempotent | frontend/src/utils/ipAddress.util.ts:158-198 | normalising twice equals normalising once on every input string |
| IpSurroundings.SpaceIgnored | frontend/src/utils/ipAddress.util.ts:163 | white space around any text does not change its normal form |
| IpSurroundings.ListIgnored | frontend/src/utils/ipAddress.util.ts:169-171 | of a comma-separated list only the first entry counts, whatever text it is and whatever follows |
| IpSurroundings.BracketsAndPortIgnored | frontend/src/utils/ipAddress.util.ts:173-176 | brackets, with or without a port, around any trimmed text that holds no bracket and no comma do not change its normal form |
| IpSurroundings.ZoneIgnored | frontend/src/utils/ipAddress.util.ts:178-181 | whatever follows a percent sign after any trimmed text that begins with no bracket does not change its normal form |
| IpSurroundings.QuadPortIgnored | frontend/src/utils/ipAddress.util.ts:183-188 | a port after any four groups of one to three digits does not change the normal form, leading zeros and numbers above 255 included |
| IpDenoted.ReadableIsBare | frontend/src/utils/ipAddress.util.ts:158-198 | a text that can be read as an IPv6 address passes all the stripping steps unchanged, so its normal form is decided by the branches alone |
| IpDenoted.QuadIsBare | frontend/src/utils/ipAddress.util.ts:158-198 | so does a text that can be read as a dotted quad |
| AddressGrammar.BracketsOnly | frontend/src/utils/ipAddress.util.ts:173-176 | brackets are stripped only as a pair around the whole text, with nothing or a port behind them |
| AddressGrammar.PortOnly | frontend/src/utils/ipAddress.util.ts:183-188 | a port is stripped only after four groups of one to three digits |
| AddressGrammar.AnswerShape | frontend/src/utils/ipAddress.util.ts:158-198 | every answer of the exported function is a dotted quad or an IPv6 text of that form, never with a leading zero |
| IpDenoted.SameTextSameAddress | frontend/src/utils/ipAddress.util.ts:158-198 | any two inputs get the same answer if and only if they are taken for the same octets, the same groups, or for no address |
| IpDenoted.AnyFullSpelling | frontend/src/utils/ipAddress.util.ts:158-198 | eight groups in any spelling get the canonical text of their address from the exported function |
| IpDenoted.AnyGapSpelling | frontend/src/utils/ipAddress.util.ts:158-198 | so do up to seven groups around a `::` |
| IpDenoted.AnyQuadSpelling | frontend/src/utils/ipAddress.util.ts:158-198 | four octets in any spelling get their dotted quad, whose pieces have no leading zeros |
| IpAddress.MappedAddress | frontend/src/utils/ipAddress.util.ts:28-152 | `::ffff:` in any letter case before a dotted quad denotes the IPv4-mapped address |
| IpDenoted.OneFormPerAddress | frontend/src/utils/ipAddress.util.ts:158-198 | two inputs that spell one IPv6 address get one normal form from the exported function if and only if both or neither take the IPv4-mapped branch |
| IpDenoted.UpperCasePrefixDiffers | frontend/src/utils/ipAddress.util.ts:158-198 | for every dotted quad the two letter cases of the prefix denote one address but get two texts |
| IpAddress.BackendAgrees | backend/src/share/shareIp.util.ts:163-212 | for any `isIP` that never calls a dotted quad IPv6, what the backend accepts it writes like the frontend, and as a fixed point |
| AddressGrammar.BackendExactly | backend/src/share/shareIp.util.ts:163-212 | for any `isIP` the backend answers like the frontend if and only if the IPv4-mapped branch is taken or `isIP` tells the family the text has, if it has one |
| LocalUpload.PrefixIndex | backend/src/file/local.service.ts:57-58 | the size of an incomplete prefix determines the index of the next chunk, rounding up |
| LocalUpload.AcceptedInStep | backend/src/file/local.service.ts:34-65 | a chunk is accepted only at the index expected for the file its reply names |
| LocalUpload.OnlyTargetChanges | backend/src/file/local.service.ts:27-120 | a request changes nothing of any other file, never drops a row, and changes nothing at all on a locked share or without disk space |
| LocalUpload.RefusedExactly | backend/src/file/local.service.ts:27-117 | each of the six errors is answered if and only if its condition holds and no check before it fails; the expected index is the held size rounded up |
| LocalUpload.RecordedAs | backend/src/file/local.service.ts:101-117 | a last chunk that is accepted adds one row, with the name it was sent with and the size of the file; nothing else adds one |
| LocalUpload.SumSizesAppend | backend/src/file/local.service.ts:77-80 | sizes add up row by row |
| LocalUpload.LocalFileService.FileSizeSum | backend/src/file/local.service.ts:77-80 | the loop adds up the sizes of all rows |
| LocalUpload.LocalFileService.HandleCreate | backend/src/file/local.service.ts:27-120 | the method with its field updates and error returns computes the specified new store and reply, the failed insert after a rename included |
| UploadSafety.ChunkAdded | backend/src/file/local.service.ts:56-117 | an expected chunk extends the stored prefix to the next one, and the last chunk to the whole content |
| UploadSafety.CreateKeepsInv | backend/src/file/local.service.ts:27-120 | one request keeps: temporary files are proper prefixes of whole chunks, finished files whole, row sizes right, ids distinct, the sum within both limits |
| UploadSafety.WithoutRowKeeps | backend/src/file/local.service.ts:141-151 | removing a file removes its row only and never raises the sum of sizes |
| UploadSafety.ApplyKeepsInv | backend/src/jobs/jobs.service.ts:101-131 | the same invariant through the clean-up of temporary files, removal of files, locking and unlocking |
| UploadSafety.EventEffects | backend/src/jobs/jobs.service.ts:101-131 | clean-up, removal and locking change exactly the files, rows and lock they are about |
| UploadSafety.EveryRunIsSafe | backend/src/file/local.service.ts:47-117 | for every sequence of such events with many files in one share: what is stored under an id is a prefix of k chunks or the whole content, and the rows respect the share limit and the reverse-share limit |
| UploadNames.EveryRowNamed | backend/src/file/local.service.ts:109-116 | in every run every row has the name its file was sent with |
| UploadSafety.TempsMayExceedLimit | backend/src/file/local.service.ts:76-93 | two uploads under way may together hold more bytes than the share allows |
| UploadClient.PermanentErrors | frontend/src/utils/upload.util.ts:23-48 | the loop resynchronises on exactly one server error and gives up on exactly four |
| UploadClient.TriedAgain | frontend/src/utils/upload.util.ts:33-48 | no response, status 0, 408, 429 and server errors are tried again, but for a full disk; the other client errors are not |
| UploadClient.GivesUpExactly | frontend/src/components/upload/EditableUpload.tsx:116-137 | an attempt ends the loop for good if and only if the answer is one of the four final errors, or a permanent one from elsewhere |
| UploadClient.UploadFile | frontend/src/components/upload/EditableUpload.tsx:68-147 | the loop that rewrites its own index, run against the server object, computes the specified run of attempts |
| UploadClient.LastChunkStored | backend/src/file/local.service.ts:101-119 | a positive reply to a last chunk means a row and the whole content under the replied id |
| UploadClient.StepKeepsInv | frontend/src/components/upload/EditableUpload.tsx:92-138 | one attempt, whatever happens to it, keeps the loop index in range and the client and server in agreement |
| UploadClient.SuccessMeansStored | frontend/src/components/upload/EditableUpload.tsx:87-140 | if the loop returns true, a row exists under the current id and its bytes are the file, for every schedule of faults |
| UploadNames.SuccessMeansListed | frontend/src/components/upload/EditableUpload.tsx:87-140 | if the loop returns true, the share lists the file under the client's name with its size |
| UploadProgress.OnlyHiddenSticks | frontend/src/components/upload/EditableUpload.tsx:116-137 | an attempt at which the file is recorded unseen, by this request or by a late copy, leaves the client stuck or failed; any other attempt leaves it not stuck |
| UploadProgress.StuckStays | frontend/src/components/upload/EditableUpload.tsx:116-137 | from there every attempt leaves it so or ends in failure |
| UploadProgress.FaultFreeProgress | frontend/src/components/upload/EditableUpload.tsx:92-138 | an attempt whose answer arrives ends the loop or lowers the measure (chunks the server waits for, in step or not), whatever other files are uploaded, removed or cleaned up before it arrives |
| UploadProgress.HiddenDecides | frontend/src/components/upload/EditableUpload.tsx:87-140 | after any run, late and repeated copies of the client's own requests included, the client is stuck or failed if the file was ever recorded unseen, and not stuck otherwise |
| UploadProgress.FaultFreeEnds | frontend/src/components/upload/EditableUpload.tsx:87-140 | as many such attempts as the measure says end the loop, other uploads of the share running in between |
| UploadProgress.UploadOutcome | frontend/src/components/upload/EditableUpload.tsx:87-140 | after finitely many faults and late copies, other uploads of the share running all the time, unless it fails for good, the loop returns true if and only if the file was never recorded unseen; it does not fail for good as long as requests find the share open and with room |
| UploadProgress.RoomSuffices | frontend/src/components/upload/EditableUpload.tsx:125-131 | whatever faults there are and whatever others do, the loop does not give up as long as each request finds the share open, room within both limits and disk space |
| UploadProgress.LostFinalReply | frontend/src/components/upload/EditableUpload.tsx:87-140 | a file of two chunks whose final reply is lost is never reported as uploaded, however the retries go, unless somebody removes the file |
| UploadProgress.LateFinalChunk | frontend/src/components/upload/EditableUpload.tsx:87-140 | nor is one whose last chunk arrives after the client has stopped waiting for it |
| UploadProgress.LeftAlone | backend/src/file/local.service.ts:27-120 | what happens to other files of the share changes neither the temporary file of this one nor whether it has a row |
| SingleChunk.SingleChunkIsSafe | frontend/src/components/upload/EditableUpload.tsx:87-140 | for a file that fits into the share, no schedule gets it recorded unseen if and only if it takes a single chunk |
| S3Upload.S3FileService.UploadChunk | backend/src/file/s3.service.ts:64-131 | the new session table and completed uploads for every point at which a call to S3 may fail |
| S3Upload.S3FileService.HandleCreate | backend/src/file/s3.service.ts:47-167 | with the abort of a failed upload and the insert of the row, the method computes the specified new state and reply |
| S3Upload.FailsExactly | backend/src/file/s3.service.ts:47-167 | a request fails if and only if one of the calls it makes fails, its session is missing or its row exists; then its session is gone, and other files are left alone |
| S3Upload.OthersKeepOwn | backend/src/file/s3.service.ts:47-167 | requests for other ids and restarts of the server leave the parts, completed uploads and row of this file alone, or lose its session |
| S3Upload.OwnRequest | backend/src/file/s3.service.ts:64-167 | a positive reply means the session holds exactly the parts up to this chunk, or after the last one that the upload is complete and recorded |
| S3Upload.GluedPrefix | backend/src/file/s3.service.ts:96-113 | the parts 1 to n put together are the first n chunks of the file |
| S3Upload.UploadKeepsInv | backend/src/file/s3.service.ts:64-150 | a session that belongs to the client holds parts 1 to its loop index, through every run |
| S3Upload.CompletedInOrder | backend/src/file/s3.service.ts:64-150 | every completed upload lists the parts 1 to total once each, in order, part k carrying slice k, together the file; success means such an upload and a row with the name and the size of the file |
| S3Progress.OnlyHiddenSticks | frontend/src/components/upload/EditableUpload.tsx:116-137 | with S3 too, and with late copies of the client's own requests, the client gets stuck only by a row written unseen, and then it is stuck or failed |
| S3Progress.FaultFreeProgress | frontend/src/components/upload/EditableUpload.tsx:92-138 | an attempt without fault, requests for other files arriving before it, succeeds or lowers the number of chunks to send, a lost session costing one attempt more |
| S3Late.LateLastLosesParts | backend/src/file/s3.service.ts:64-150 | a last chunk that arrives after the client has started over completes an upload of the first and the last part only, with a row |
| S3Late.LateCopiesHarmless | backend/src/file/s3.service.ts:64-150 | with late and repeated copies of a file's own requests every completed upload is the whole file in all runs if and only if the file has at most two chunks |
| S3Progress.UploadOutcome | frontend/src/components/upload/EditableUpload.tsx:87-140 | after finitely many faults of the network or of S3, other files being uploaded all the time, unless it fails for good, the loop returns true if and only if the row was never written unseen |
| SingleChunk.S3SingleChunkIsSafe | frontend/src/components/upload/EditableUpload.tsx:87-140 | with S3 too, no schedule gets the row written unseen if and only if the file takes a single chunk |
| RateLimiter.ApiV1ThrottlerGuard.CanActivate | backend/src/apiToken/guard/apiV1Throttler.guard.ts:19-48 | requests without policy and OPTIONS pass untouched; all others change the map and pass as specified, refused ones changing nothing |
| RateLimiter.DecideStores | backend/src/apiToken/guard/apiV1Throttler.guard.ts:34-45 | a request that passes is stored behind the recent ones; a refused one and all other identifiers change nothing |
| RateLimiter.StoredAgrees | backend/src/apiToken/guard/apiV1Throttler.guard.ts:33-47 | the stored list and the full history agree on everything that still counts at any later time |
| RateLimiter.DecidesLikeFullHistory | backend/src/apiToken/guard/apiV1Throttler.guard.ts:33-47 | every decision is that of a limiter that never discards a timestamp |
| RateLimiter.StoredWithinLimit | backend/src/apiToken/guard/apiV1Throttler.guard.ts:38-45 | the stored list never exceeds the limit, even if the clock runs back |
| RateLimiter.PassedAreAccepted | backend/src/apiToken/guard/apiV1Throttler.guard.ts:33-47 | the times at which the guard lets requests pass are those the limiter that forgets nothing accepts |
| RateLimiter.PassedWithinWindow | backend/src/apiToken/guard/apiV1Throttler.guard.ts:33-47 | of the requests with one identifier that the guard lets pass, among any others, number i + limit comes at least one window after number i |
| RateLimiter.GuardPassesExactly | backend/src/apiToken/guard/apiV1Throttler.guard.ts:33-47 | the guard lets a request pass if and only if it has let fewer than limit pass or the limit-th last of those is a whole window old |
| ShareAccess.ShareRow.AssignShareIpAddress | backend/src/share/share.service.ts:1273-1327 | the transaction on the stored rows claims an address or refuses as specified |
| ShareAccess.ShareRow.Handle | backend/src/share/guard/shareSecurity.guard.ts:26-120 | a visit handled without interruption changes the row as its three steps do in the interleaved model |
| ShareRuns.AssignKeepsFirst | backend/src/share/share.service.ts:1273-1327 | the transaction keeps the claimed addresses the first distinct ones to commit, and succeeds if and only if the address is among them |
| ShareRuns.FirstComeFirstServed | backend/src/share/share.service.ts:1125-1188 | for every interleaving: the claimed addresses are the first maxIps distinct ones to commit and exactly those of the visits that were let in; those refused for the limit have none of them and the list is full |
| ShareRuns.AdmittedAreEntitled | backend/src/share/guard/shareSecurity.guard.ts:62-117 | for every interleaving nobody gets in without the password or its token, a valid token if one is sent, and an allowed address |
| ShareRuns.AdmittedExactly | backend/src/share/guard/shareSecurity.guard.ts:62-117 | an uninterrupted visit is admitted if and only if it is entitled and both limits leave room, or is an administrator's; the counter and the claimed addresses change as the rule says, and not at all for a refused visit |
| ShareRuns.DeniedExactly | backend/src/share/guard/shareSecurity.guard.ts:62-117 | for an uninterrupted visit each of the six reasons of refusal is given if and only if its condition on the rule, the counter, the claimed addresses and the visit holds |
| ShareRuns.CounterBounds | backend/src/share/share.service.ts:733-784 | for every interleaving the counter stays within the larger of its first value and the limit, never counts more than were admitted, and is exact if and only if no write was stale |
| ShareRuns.OneByOneCounted | backend/src/share/share.service.ts:733-784 | visits one at a time are counted exactly once each and never exceed the limit |
| ShareRuns.OverlapExceedsLimit | backend/src/share/guard/shareSecurity.guard.ts:105-117 | two overlapping visits pass a limit of one view and are counted as one |
| ViewLimit.CountedAreWanted | backend/src/share/share.service.ts:733-784 | in every interleaving no more views are counted than visits want to be, given as many addresses as have a place |
| ViewLimit.RoundsCountAll | backend/src/share/guard/shareSecurity.guard.ts:105-117 | if everyone reads before anyone writes, all visits that want to be counted are, for any addresses that have a place |
| ViewLimit.LimitHoldsExactly | backend/src/share/guard/shareSecurity.guard.ts:62-117 | the admitted views stay within the limit in all interleavings if and only if the limit is reached already or no more visits want to be counted than views are left, for any choice of who gets a place |
| ViewLimit.LimitHoldsWithoutIps | backend/src/share/guard/shareSecurity.guard.ts:62-117 | without a limit on addresses that is: the first count plus the visits that want to be counted is at most the limit |
| ViewLimit.CounterExactly | backend/src/share/share.service.ts:733-784 | the counter equals the admitted views in all interleavings if and only if the limit is reached already or no two visits want to be counted, for any choice of who gets a place |
| ShareSecurity.OperationIsMerge | backend/src/share/share.service.ts:953-1049 | for every patch and row, applying the database operation gives the field-by-field merge, is refused exactly when the merge is, and deletes only an existing row |
| ShareSecurity.PasswordStored | backend/src/share/share.service.ts:966-968 | the stored password is the hash of a text that is not empty, none for null and the empty text, and the old one if the patch has none |
| ShareSecurity.ViewsStored | backend/src/share/share.service.ts:969-971 | the stored limit on views is that of the patch, or the old one |
| ShareSecurity.AddressesStored | backend/src/share/share.service.ts:972-985 | the stored limit and list, case by case, and when claimed addresses are dropped |
| ShareSecurity.RowStored | backend/src/share/share.service.ts:993-1001 | a row is stored if and only if it has some rule; without a patch nothing happens |
| ShareSecurity.PatchRefused | backend/src/share/share.service.ts:987-991 | from a sound row a patch is refused if and only if its list is bad or comes with a limit that is not zero |
| ShareSecurity.ListRefused | backend/src/share/share.service.ts:1250-1267 | a list is refused if and only if some entry that is not blank has no normal form |
| ShareSecurity.NormalizedList | backend/src/share/share.service.ts:1250-1267 | the list holds distinct normal forms |
| ShareSecurity.ListMembers | backend/src/share/share.service.ts:1250-1267 | an address is on the list if and only if some entry that is not blank normalises to it |
| ShareSecurity.MergeKeepsInv | backend/src/share/share.service.ts:953-1049 | the merge keeps the stored rule sound |
| ShareSecurity.EveryHistoryIsSound | backend/src/share/share.service.ts:953-1049 | over all sequences of patches and visits a row exists only with some rule, a limit never coexists with a list, and claimed addresses stay within a positive limit |
| Timespan.ParsePieces | backend/src/config/config.service.ts:362-383 | every text made of a number, white space and a known unit, padded by white space, is read as that period |
| Timespan.AcceptedPieces | backend/src/config/config.service.ts:362-383 | and every accepted text is made that way |
| Timespan.UnitLengths | backend/src/config/config.service.ts:33-40 | the six units, each said in terms of the next smaller one |
| Timespan.ReadersAgree | backend/src/utils/date.util.ts:26-32 | the other reader gives the validated period if and only if the white space is placed as it expects |
| Config.ConfigService.HandleUpdate | backend/src/config/config.service.ts:188-247 | one update changes the table as specified or fails and changes nothing |
| Config.ConfigService.NextValues | backend/src/config/config.service.ts:169-172 | the loop lays all entries over the current values, later ones winning |
| Config.ConfigService.HandleUpdateMany | backend/src/config/config.service.ts:163-186 | the method succeeds exactly when the validation and every single update do, and then leaves the table they produce; when it fails, the table is the one after some of the updates |
| Config.UpdateTouchesTarget | backend/src/config/config.service.ts:199-243 | an update changes the effective value of the variable its key addresses and of no other |
| Config.StoredText | backend/src/config/config.service.ts:239 | numbers are stored in decimal, truth values as words, null and the empty text as nothing |
| Config.UpdateAccepted | backend/src/config/config.service.ts:188-230 | an update is accepted if and only if the variable exists, is not locked, and the value fits its type, range, form and context |
| Config.UpdateWrites | backend/src/config/config.service.ts:232-240 | it writes one value and no type, lock or other row |
| Config.LockedStays | backend/src/config/config.service.ts:208-209 | a locked variable keeps its value through every successful call |
| Config.ValueInForce | backend/src/config/config.service.ts:285-331 | the value in force is the stored one, else the initial, else the default one |
| Config.UpdatesEndInOverlay | backend/src/config/config.service.ts:163-186 | if the last key that addresses a variable is its exact one, the sequential updates end in the value that was validated beforehand |
| Config.SettledMeans | backend/src/config/config.service.ts:199-206 | that is so if and only if every longer key of the variable is followed by the exact one |
| Config.UpdateManyKeepsPeriods | backend/src/config/config.service.ts:163-186 | after every successful call of that kind for both periods the editable one is at most the retention period, whatever other keys it contains |
| Config.UpdateManyOfOne | backend/src/config/config.service.ts:163-247 | with one entry, updating many and updating one with its own check do the same |
| Config.LongerKeyTarget | backend/src/config/config.service.ts:199-206 | a key with three parts addresses the variable of its first two |
| Config.SafeKeyKeeps | backend/src/config/config.service.ts:163-247 | a call with one entry under a safe key keeps the periods consistent whatever the value |
| Config.UnsafeKeyBreaks | backend/src/config/config.service.ts:169-173 | for every unsafe key there is a value with which such a call is accepted and breaks them |
| Config.ExactKeysDecide | backend/src/config/config.service.ts:163-247 | all calls with one entry under a key keep the periods consistent if and only if the key is safe |
| ConfigKeys.SafeKeysKeep | backend/src/config/config.service.ts:163-247 | a call with a safe list of keys keeps the periods consistent whatever the values |
| ConfigKeys.ChoiceBreaks | backend/src/config/config.service.ts:169-183 | minutes that pass the validation and end the wrong way round make a call that is accepted and breaks them |
| ConfigKeys.SafeKeysDecide | backend/src/config/config.service.ts:163-247 | all calls with a given list of keys keep the periods consistent if and only if the list is safe: the last key of each period is its exact one, or only zero editable minutes can pass |
| Retention.ListedIsEditable | backend/src/share/share.service.ts:442-456 | the owner's list shows exactly the shares the per-share predicate calls editable |
| Retention.LifeTimes | backend/src/share/shareAccess.util.ts:3-25 | without an expiration a share is editable, listed and kept for ever; otherwise for exactly the two periods after it, in milliseconds |
| Retention.KeptMembers | backend/src/jobs/jobs.service.ts:22-51 | the job leaves exactly the shares that are not due |
| Retention.JobSparesEditable | backend/src/share/shareAccess.util.ts:3-25 | the job spares every editable share at all times if and only if the editable period is at most the retention period |
| Retention.PeriodsInForce | backend/src/config/config.service.ts:116-131 | the periods in force are the validated ones if both texts are read alike |
| Retention.EditableSharesSurvive | backend/src/jobs/jobs.service.ts:22-51 | after a successful update of many variables that settles both periods, or one under any safe list of keys from a consistent table, the job never deletes a share that is still editable |
| Retention.TwoBlanksReadDifferently | backend/src/config/config.service.ts:362-383 | every period written with two blanks passes the validation and is read differently elsewhere |
| Tokens.TokenService.HandleSignInTotp | backend/src/auth/authTotp.service.ts:23-64 | the checks in their order, the used flag and the new session are as specified |
| Tokens.TokenService.HandleResetPassword | backend/src/auth/auth.service.ts:177-204 | the checks, the deletion of the token and the new password are as specified |
| Tokens.JobDeletesUseless | backend/src/jobs/jobs.service.ts:133-147 | a session is deleted if and only if it can no longer be refreshed, an unused login token if and only if the right code no longer signs in with it, a reset token only if it no longer resets a password; the others stay as they are |
| Tokens.AlikeAct | backend/src/auth/auth.service.ts:122-224 | stores that differ in expired tokens only answer every action alike and stay so |
| Tokens.JobIsNotNoticed | backend/src/jobs/jobs.service.ts:133-147 | running or skipping the job at any moments changes no later answer, under a clock that does not run back |
| Tokens.SpentStays | backend/src/auth/authTotp.service.ts:23-52 | a used or deleted login token stays unusable |
| Tokens.OneSessionPerLoginToken | backend/src/auth/authTotp.service.ts:23-64 | a login token is accepted at most once, whatever happens in between |
| TokenLifetimes.RefreshExactly | backend/src/auth/auth.service.ts:299-312 | a session can be refreshed later if and only if it has not expired, nobody signed out of it and its user did not change the password in between |
| TokenLifetimes.SessionFromSignIn | backend/src/auth/auth.service.ts:122-138 | signing in opens a session of that user, which can be refreshed if and only if it has not expired or been ended, unless a verified second factor is asked for; then it gives a login token and no session |
| TokenLifetimes.SessionFromPassword | backend/src/auth/auth.service.ts:206-224 | a new password ends all sessions of its user, no others, and opens one that lives like any other |
| TokenLifetimes.ResetExactly | backend/src/auth/auth.service.ts:140-204 | a reset token works if and only if its hour has not passed, it was not used and no newer one was requested |
| TokenLifetimes.SignInExactly | backend/src/auth/authTotp.service.ts:23-64 | a login token works if and only if its five minutes have not passed, it was not used, the code is valid and a secret is stored, and the session it opens belongs to the user it was issued to |
| Tokens.VerifiedAlwaysHasSecret | backend/src/auth/authTotp.service.ts:66-165 | over all runs a verified second factor has a stored secret |
| Tokens.SecondFactor | backend/src/auth/authTotp.service.ts:66-165 | what setting up, confirming and removing the second factor leave of it, and that nothing else changes it |
| Tokens.AcceptedExactly | backend/src/auth/authTotp.service.ts:66-150 | when the actions on the second factor, a new password and a reset request are accepted |
| Tokens.PasswordsReplaced | backend/src/auth/auth.service.ts:177-224 | a password is replaced by an accepted reset or update for its user and by nothing else |
| Tokens.RefusedChangesNothing | backend/src/auth/auth.service.ts:122-224 | a refused action changes nothing |
| Usernames.GetAvailableUsername | backend/src/oauth/oauth.service.ts:125-142 | the unbounded search ends after at most one lookup more than there are users, with the first candidate that is not in use: the first choice itself, or that with an underscore and random texts appended |
| Usernames.SanitizeSplit | backend/src/oauth/oauth.service.ts:127-129 | cleaning works character by character |
| Usernames.SanitizeChar | backend/src/oauth/oauth.service.ts:127-128 | exactly letters, digits, dots and underscores are kept |
| Usernames.FirstChoiceShape | backend/src/oauth/oauth.service.ts:127-129 | the first choice is the cleaned name, or its first 20 characters |
| FileSample.StreamToUint8Array | backend/src/file/file.service.ts:126-156 | the sample is the first bytes of the stream up to the maximum, however the stream is cut into chunks |
| FileSample.IsProbablyText | backend/src/file/fileWebView.util.ts:285-312 | the loop with its early return decides: no zero byte and under a tenth of suspicious bytes in the first 2048 |
| FileSample.TextExactly | backend/src/file/fileWebView.util.ts:285-312 | text is what has no zero byte and under a tenth of suspicious ones among the first 2048 |
| FileSample.SuspiciousBytes | backend/src/file/fileWebView.util.ts:300-306 | suspicious are 127 and the control characters but tab, line feed, form feed and carriage return |
| FileSample.SampleDecides | backend/src/file/fileWebView.util.ts:285-323 | a sample of 2048 bytes or more is classified like the whole file |
| ApiTokens.ReadPiecesClean | backend/src/apiToken/apiToken.util.ts:8-35 | whatever the header, the id and secret that are read hold no blank and no dot, and the secret is not empty |
| ApiTokens.HeaderExactly | backend/src/apiToken/apiToken.util.ts:8-35 | a header is read as an id and a secret if and only if it carries them, prefixed, under the bearer scheme in any letter case, with only what follows a further dot or blank left unread |
| ApiTokens.TokenRoundTrip | backend/src/apiToken/apiToken.service.ts:50-63 | a handed-out token is read back if and only if its secret is not empty and neither part holds a blank or a dot |
| ApiTokens.NormalizedScopes | backend/src/apiToken/apiToken.util.ts:44-50 | the scopes come out strictly ascending and are exactly the known ones given |
| ApiTokens.LessMeans | backend/src/apiToken/apiToken.util.ts:44-50 | the order is by the first character that differs, a beginning coming first |
| ApiTokens.SameScopes | backend/src/apiToken/apiToken.util.ts:44-50 | they depend only on which known scopes are given, not on order or repetition |
| ApiTokens.ScopesRoundTrip | backend/src/apiToken/apiToken.util.ts:52-60 | reading the stored text of any scopes gives the normalised scopes |

## Left out

- Foreign code and real input and output: the database, the file system, S3, password hashing, TOTP codes, JWTs, the disk
  space query and `isIP` are parameters or abstract stores; LDAP, e-mail, ClamAV and the OAuth network calls are not modelled.
- Characters are single code points: strings are not split into UTF-16 units, and `ToLower` covers ASCII letters only. No
  accepted address or authorization scheme holds another letter.
- Numbers are unbounded; texts of more digits than a double can hold exactly are read exactly. The quotient test of
  `isProbablyText` is stated as a product, which decides alike for the at most 2048 bytes it looks at.
- Upload: one `create` call is atomic, so crashes between append, rename and insert are not modelled; one id stands for one
  content and belongs to one share; the chunk size is the same on both sides and constant.
- Upload: a lost first reply of a file of one chunk leads to a second record under a new id, so the theorems state the
  correctness of what is recorded, not that it is recorded once.
- Upload: the loop's five-second wait, its progress display and the limit of three parallel files do not affect the protocol.
- S3Upload.CompletedInOrder: is about requests of a file that arrive in the order the loop sends them, as one attempt ends before the next starts; what late copies do is stated in `S3Late`.
- S3Progress.UploadOutcome: a part list that S3 itself refuses counts as a fault of S3; equal file names in one share, which share an S3 key, S3's limits on parts, and the removal of a file while it is being uploaded are not modelled.
- UploadProgress.UploadOutcome: nobody removes the file from the share while the loop is still uploading it, and a newly drawn id is in no use.
- Tokens.OneSessionPerLoginToken: takes the check and the marking of a login token as one atomic step; two overlapping sign-ins are not modelled.
- ShareRuns.FirstComeFirstServed: takes the assignment transaction as atomic, which leaves its unique-constraint branch without a case, and the rule as fixed while visits are under way.
- ShareSecurity.EveryHistoryIsSound: visits are atomic there; the rule of a newly created share (`normalizeShareSecurity`) is not modelled.
- Retention.EditableSharesSurvive: months and years have the fixed lengths of the configuration code, not calendar lengths.
- Config.ExactKeysDecide: the numeric range conditions of two variables are a parameter, so JavaScript's comparison of a text with a number is not modelled.
- Config.UpdateManyKeepsPeriods: is about successful calls; one that fails part-way leaves the updates before the failure in place, and the periods may then be inconsistent.
- The configuration file mode, events and the secret and obscured flags of configuration variables.
- Which share, reverse share and user let a visit pass the first checks of the guard, which are a parameter of the visit.
- How the throttling guard builds its identifier, and the address and token extraction from a request.
- Archives: files can be removed after the archive was built, so no clean invariant holds there.
- User administration, reverse shares apart from their size limit, recipients, audits, clean-up of unfinished and reverse
  shares, and the tables of file types and MIME types: they would only add easy members.
