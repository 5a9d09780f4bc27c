# sneakynote.com, modelled in Dafny

sneakynote.com keeps one-time secret notes. A client posts an encrypted note
under a random UUID and gets back a twelve-character human code. The note can
be read exactly once. After that, and after ten minutes at the latest, only a
small record of the note remains. The record tells the code holder, who polls
the status path, that the note was read or that it expired. The store is a
folder on a RAM disk with four sub-folders (`being_accessed`, `accessed`,
`expiring`, `expired`), and a sweeper deletes files by age. Two Ruby build
scripts come with the site:

- `resize_images.rb` bisects for a JPEG quality under a size budget.
- `anchorize_headers.rb` turns HTML headings into self-linking anchors.

The model covers the following. Each module is one file.

- `Common`: bytes, Go's 64-bit `int` wrap-around, and decimal printing.
- `StoreCodes`: the code alphabet, `generateCode`, `maxSecretStorageSize`
  and `strings.TrimSpace` on a code line.
- `StoreIds`: hex encoding and decoding, `UuidToFileName` with SHA-256 as a
  parameter, and `GenerateUuid` with its random bytes as a parameter.
- `FreeSpace`: the `df` / `free -b` output parsers of Mac OS X and Linux,
  the platform headroom constants, and `Teardown`'s unmount retry and
  `rm -r` guard.
- `SecretStore`: the store's folders as maps from file name to
  (contents, mtime). It holds pure specifications of `Save`, `Retrieve` and
  `Status`, and a `Store` class whose methods change the folders step by
  step as the Go code does. Each method is proved equal to its
  specification.
- `StoreLifecycle`: properties of those specifications across calls. These
  are the round trip, single use, the destroy-on-duplicate rule, the
  precedence order of `Status`, and the invariant that files keep the
  layout `Save` writes.
- `StoreSweeper`: `Sweep`, `SweepSecrets` and `sweepFolder` as loops over
  a folder listing, each proved against a specification function. The
  lemmas state what a full sweep leaves behind.
- `HttpRoutes`: the two note-path regexes as a scanner proved sound and
  complete, and the method dispatch of `note` / `noteStatus`.
- `HttpPaths`: `MaybeGzip`'s rewrite, with Go's `path.Clean` for rooted
  paths and `filepath.Ext`.
- `Handlers`: `postNote`, `getNote`, the long-poll loop of
  `getNoteStatus`, `note` and `zeroBuffer`, as methods over a `Store`.
  Each method is proved equal to a function of the store before the
  request.
- `ResizeImages`: `qsearch` over Ruby's `Array#bsearch`, and the driver's
  loops with the recompress rule and the file names.
- `AnchorizeHeaders`: the heading pattern as a matcher proved to invert a
  renderer, the slug pipeline of line 8, and the rewrite.

Time is an integer clock in milliseconds. It is passed in, as are:

- SHA-256;
- the random draws (`None` when `crypto/rand` fails);
- the free-space reading;
- the outcome of writing a file;
- the outcome of each external command.

## Model

| member | source | states |
|---|---|---|
| Common.Wrap64 | store/store_darwin.go:117 | Go's 64-bit `int` arithmetic: the result is in the signed 64-bit range, congruent to the exact value modulo 2^64, and equal to it when it fits |
| Common.DecimalRoundTrip | handlers.go:286 | `strconv.FormatInt(n, 10)` of a non-negative size reads back as that size |
| StoreCodes.MaxSecretStorageSize | store/store.go:433-435 | the storage limit exceeds the payload limit by exactly the code line, 12 code bytes and a newline; SavedFileFits shows every saved file keeps to it |
| StoreCodes.AlphabetShape | store/store.go:38 | the alphabet has 30 symbols, each at the index SymbolIndex computes, and none of 0, 1, i, l, o, u |
| StoreCodes.SymbolIndexInverse | store/store.go:38 | a character is in the alphabet exactly when it is a code symbol, and it sits at its SymbolIndex |
| StoreCodes.Symbol | store/store.go:437-443 | the symbol drawn for a draw below 30 is a code symbol whose index is that draw |
| StoreCodes.GenerateCode | store/store.go:445-468 | ten draws give a 12-character code: symbols in three groups of 3, 3 and 4 with single spaces at positions 3 and 7 |
| StoreCodes.CodeDraws | store/store.go:445-468 | the draws read back from a human code are ten values below 30 |
| StoreCodes.DrawsOfCode | store/store.go:445-468 | different draws give different codes: the draws can be read back from the code |
| StoreCodes.CodeOfDraws | store/store.go:445-468 | every string of the human-code shape is the code of some draws |
| StoreCodes.HumanCodeIsAscii | store/store.go:124 | a code is ASCII, so `[]byte(code)` is its characters one to one |
| StoreCodes.TrimSpaceShape | store/store.go:286 | `strings.TrimSpace` keeps one contiguous part of its input, drops only white space around it, and keeps no white space at either end |
| StoreCodes.TrimCodeLine | store/store.go:279-286 | the code line Save writes (code plus newline), trimmed, is the code again |
| StoreIds.HexValue | store/store.go:413 | a hex digit's value is below 16 |
| StoreIds.HexDigit | store/store.go:419 | a nibble prints as a lower-case hex digit that reads back as the nibble |
| StoreIds.HexEncode | store/store.go:419 | `hex.EncodeToString`: two lower-case hex digits per byte |
| StoreIds.HexDecode | store/store.go:413 | `hex.DecodeString`: a result has half as many bytes as the text has characters |
| StoreIds.HexRoundTrip | store/store.go:413-419 | decoding what was encoded gives the bytes back |
| StoreIds.HexDecodeIgnoresCase | store/store.go:413 | decoding does not depend on the case of the hex digits |
| StoreIds.HexDecodeThenEncode | store/store.go:413-419 | whatever decodes is encoded back as its lower-case spelling |
| StoreIds.StripHyphensAppend | store/store.go:413 | removing every `-` distributes over concatenation |
| StoreIds.UuidToFileName | store/store.go:412-422 | the name is "" exactly when the ID without hyphens is not hex; otherwise it is 64 lower-case hex digits |
| StoreIds.SameFileName | store/store.go:412-422 | IDs that differ only in hyphen placement and hex case get the same file name |
| StoreIds.SetVersionAndVariant | store/store.go:400-401 | byte 6 gets version 4 in its high nibble and byte 8 gets variant bits 10; their other bits and every other byte are kept |
| StoreIds.GenerateUuid | store/store.go:392-410 | a failed `rand.Read` gives ""; otherwise the ID is 36 characters long |
| StoreIds.GeneratedUuidLayout | store/store.go:403 | hyphens at 8, 13, 18 and 23, `4` at 14, and one of 8, 9, a, b at 19 |
| StoreIds.GeneratedUuidDecodes | store/store.go:403-413 | a generated ID without its hyphens decodes to exactly the adjusted random bytes |
| FreeSpace.HeadroomValues | store/store_darwin.go:16 | the Mac OS X headroom is 3 × (16384 + 12 + 1) = 49191 bytes and the Linux one 30 MiB = 31457280 bytes |
| FreeSpace.DigitRunEnd | store/store_darwin.go:98 | the greedy `\d+`: a maximal run of digits |
| FreeSpace.MatchAt | store/store_darwin.go:98 | a match of `\s\d+\s` is at least three bytes long |
| FreeSpace.FindAll | store/store_darwin.go:103 | `FindAll(_, -1)` returns only strings that are whitespace, digits and whitespace |
| FreeSpace.TrimMatch | store/store_darwin.go:109 | `strings.TrimSpace` of a match is its digits |
| FreeSpace.ThirdNumber | store/store_darwin.go:109-114 | `ParseInt` of the third match succeeds exactly when the number fits in 64 bits, and it is not negative |
| FreeSpace.DarwinFreeSpace | store/store_darwin.go:86-117 | a failed `df` gives -1 with an error; no match gives -1 without one; one or two matches panic on `matches[2]`; otherwise 512 × the third number, wrapped to 64 bits, or -1 with an error when it does not parse |
| FreeSpace.LinuxFreeSpace | store/store_linux.go:74-101 | the same cases for `free -b`, with the third number taken as bytes |
| FreeSpace.ParseDigitBytes | store/store_darwin.go:110 | the digits of n parse back as n |
| FreeSpace.FindAllSuffix | store/store_darwin.go:103 | matching from a position sees only the text from there on |
| FreeSpace.LeadingMatch | store/store_darwin.go:103 | a space, a number and a space at the front are one match, and the search resumes after the second space |
| FreeSpace.DigitsThenSpaceNoMatch | store/store_darwin.go:98 | a number not preceded by whitespace is never matched |
| FreeSpace.ThreeNumbers | store/store_darwin.go:95-96 | in output whose numbers are set apart by two spaces, as in `df`'s columns, the third number is read |
| FreeSpace.TwoSingleSpacedNumbers | store/store_darwin.go:103-109 | each match takes its trailing space, so " a b " is one match and freeSpace panics |
| FreeSpace.ThreeSingleSpacedNumbers | store/store_darwin.go:103-109 | in " a b c " only a and c match, still too few for `matches[2]` |
| FreeSpace.SkipDigits | store/store_darwin.go:103 | no match starts inside a run of digits |
| FreeSpace.RemovableRootExamples | store/store_darwin.go:69 | the default store path passes the `rm -r` guard; `/`, `/tmp`, `/tmp/`, `/tmp//x` and `/var/tmp/x` do not |
| FreeSpace.RemovableRootIsPrefixCheck | store/store_linux.go:57 | the guard checks only a prefix: anything may follow an accepted root |
| FreeSpace.Teardown | store/store_linux.go:43-71 | the unmount runs once and again only after a failure; `rm -r` runs exactly when an unmount succeeded and the guard accepts the root; an error is returned exactly when both unmounts or the removal fail |
| SecretStore.FileNameNotSubfolder | store/store.go:412-422 | a hashed file name never collides with a sub-folder's name |
| SecretStore.AvailableMemory | store/store.go:99-107 | a failed reading gives -1; otherwise free space minus headroom, in Go's `int` |
| SecretStore.ReadCode | store/store.go:356-367 | `readCode` succeeds exactly on a regular file of at least 12 bytes and returns its first 12 |
| SecretStore.SecretFile | store/store.go:188 | a secret file is 13 bytes of code line followed by the payload unchanged |
| SecretStore.CodeLineOfSecretFile | store/store.go:279-286 | the code line of a secret file reads back as its code, both trimmed and through `readCode` |
| SecretStore.BodyRoom | store/store.go:118-127 | the room left in Save's buffer after the code line is one byte more than the payload limit, so a body one byte over the limit is read far enough to be refused |
| SecretStore.Consumed | store/store.go:254-300 | opening a secret takes it out of the root and leaves no scratch file; every other root entry is kept unchanged; its accessed record is stamped now and holds its trimmed code line; `expiring` and `expired` do not change |
| SecretStore.AccessedOrExpired | store/store.go:379-390 | an error exactly when an accessed or an expired record exists; it is SecretAlreadyAccessed or SecretExpired, and SecretExpired only when there is no accessed record |
| SecretStore.RetrieveNotFoundError | store/store.go:369-377 | SecretNotFound exactly when neither record exists; otherwise SecretAlreadyAccessed or SecretExpired, SecretExpired only without an accessed record |
| SecretStore.Locate | store/store.go:315-353 | no code comes back exactly when the answer is SecretNotFound, and a code is 12 bytes; no error means a live secret file within the lifetime; SecretAlreadyAccessed exactly when an accessed record can be read |
| SecretStore.StatusSpec | store/store.go:303-313 | no error only when the given code is the live secret's code and the secret is within its lifetime; SecretAlreadyAccessed only when it is the accessed record's code; SecretExpired only when it is the expired record's or the aged secret's code |
| SecretStore.ConsumeSteps | store/store.go:254-300 | opening a secret (rename into `being_accessed`, empty record, record with the code, zero and remove) removes it from the root, leaves no scratch file, and leaves an accessed record holding its code |
| SecretStore.SaveSpec | store/store.go:109-230 | Save's result as a function of the store before it; the store stays valid |
| SecretStore.RetrieveSpec | store/store.go:233-301 | Retrieve's result as a function of the store before it; the store stays valid |
| SecretStore.ReadFull | store/store.go:294 | `io.ReadFull` fills min(buffer, file) bytes with the file's first bytes and leaves the rest of the buffer alone |
| SecretStore.Store.Setup | store/store.go:49-97 | `Get` then `Setup`: default settings, and a RAM disk holding just the four sub-folders |
| SecretStore.Store.Rename | store/store.go:254 | the rename succeeds exactly when the file is in the root, and then moves it; otherwise nothing changes |
| SecretStore.Store.WriteFile | store/store.go:268 | `ioutil.WriteFile` creates or truncates the file and stamps it with the current time |
| SecretStore.Store.ZeroFileAndRemove | store/store.go:470-510 | the file is gone from its folder afterwards, whatever zeroing did; nothing else changes |
| SecretStore.Store.KillSecret | store/store.go:155-186 | the duplicate-id branch leaves the store as Consumed: the secret is gone and its accessed record holds its code |
| SecretStore.Store.Save | store/store.go:109-230 | the new store and the returned code or error are those of SaveSpec |
| SecretStore.Store.Retrieve | store/store.go:233-301 | the new store, code and error are those of RetrieveSpec; on success the buffer starts with the payload, and on failure `nRead` is -1 and the buffer is untouched |
| SecretStore.Store.LocateSecretAndCode | store/store.go:315-353 | the retrying loop returns Locate: the accessed record, else the expired record, else the live secret (expired when too old), else not found |
| SecretStore.Store.Status | store/store.go:303-313 | Status answers StatusSpec |
| StoreLifecycle.SaveStores | store/store.go:109-230 | Save succeeds exactly when every check passes, the ID has no live secret and the write succeeds; then the code is a human code and only the new secret file `code\npayload`, stamped now, is added |
| StoreLifecycle.SavedFileFits | store/store.go:118-188 | the secret file Save writes is never longer than `maxSecretStorageSize`, and a payload of exactly MaxSecretSize bytes fills it to that size |
| StoreLifecycle.FreeSpaceUnknownUnreachable | store/store.go:146-151 | the "Could not determine storage free space" error is never returned: an unknown reading is -1 and a body of zero bytes already exceeds it |
| StoreLifecycle.SizeLimit | store/store.go:142-144 | exactly MaxSecretSize bytes pass the size check; one byte more is SecretTooLarge and stores nothing |
| StoreLifecycle.SaveThenRetrieve | store/store.go:188-300 | a read within the lifetime returns the saved payload and code; the secret leaves the root and its accessed record equals the code |
| StoreLifecycle.SingleUse | store/store.go:254-259 | after a read has opened the file, every later read is SecretAlreadyAccessed and changes only its own scratch name |
| StoreLifecycle.NoReuseAfterRead | store/store.go:113-116 | once read, an ID can never be saved again (DuplicateId, nothing changes) |
| StoreLifecycle.DuplicateSaveDestroys | store/store.go:155-186 | saving a live ID again gives DuplicateId, removes the secret, records its code as accessed, and a later read is SecretAlreadyAccessed |
| StoreLifecycle.StatusNeedsCode | store/store.go:303-313 | an empty code always gets SecretNotFound; any other answer means the given code is 12 characters long and equal to the code the store located |
| StoreLifecycle.StatusOfSavedSecret | store/store.go:335-344 | right after Save, the code holder sees no error until the lifetime ends, and SecretExpired after it |
| StoreLifecycle.StatusAfterRead | store/store.go:327-329 | after the secret has been read, the code holder is told SecretAlreadyAccessed |
| StoreLifecycle.StatusOfAccessedRecord | store/store.go:327-329 | an accessed record holding the code wins over every other state |
| StoreLifecycle.SecretFileLayout | store/store.go:188 | what Save writes has the secret-file layout, and its record is its code |
| StoreLifecycle.RecordOfSecretFile | store/store.go:279-290 | the accessed record of any well-formed secret file is a code |
| StoreLifecycle.SaveEffect | store/store.go:109-230 | Save leaves the root and the records alone, adds one secret file, or consumes the live duplicate; nothing else |
| StoreLifecycle.RetrieveEffect | store/store.go:233-301 | Retrieve leaves the root and the records alone or consumes exactly the secret it read |
| StoreLifecycle.SaveKeepsWellFormed | store/store.go:109-230 | Save keeps every secret file in its layout and every record a code |
| StoreLifecycle.RetrieveKeepsWellFormed | store/store.go:233-301 | Retrieve keeps the same invariant |
| StoreLifecycle.WellFormedCodeReadable | store/store.go:279-284 | in a well-formed store Retrieve never fails for want of a code line |
| StoreLifecycle.FreshDiskWellFormed | store/store.go:60-97 | a fresh store is well formed |
| StoreSweeper.ExpiredRecord | store/store_sweeper.go:74-84 | the expiry record is 12 bytes: the file's first bytes, zeros past its end |
| StoreSweeper.MaxAge | store/store_sweeper.go:94-109 | with a non-negative lifetime every age limit is non-negative and zero only for `expiring` (or the root with a zero lifetime); `being_accessed` waits longer than the lifetime; `accessed` and `expired` keep 24 h |
| StoreSweeper.SweptSecrets | store/store_sweeper.go:47-91 | the root sweep leaves `being_accessed` and `accessed` alone, only removes root entries, and only adds to `expiring` and `expired` |
| StoreSweeper.SweptFolder | store/store_sweeper.go:111-128 | sweeping one folder keeps the store valid; SweptFolderFrame states what it keeps and removes |
| StoreSweeper.SweepFrom | store/store_sweeper.go:18-45 | the sweep stops at the first unreadable folder and reports it; no report means every folder was readable |
| StoreSweeper.SweepSpec | store/store_sweeper.go:18-45 | a sweep reports an error exactly when some folder cannot be listed |
| StoreSweeper.PruneOne | store/store_sweeper.go:120-125 | one step of sweepFolder's loop removes the entry exactly when it is an aged regular file |
| StoreSweeper.SweepFolder | store/store_sweeper.go:111-128 | an unreadable folder is an error and nothing changes; otherwise exactly the regular files older than now − maxAge are removed from that folder |
| StoreSweeper.ExpireOne | store/store_sweeper.go:58-87 | one step of SweepSecrets' loop adds that entry's effect to SweptSecrets |
| StoreSweeper.SweepSecrets | store/store_sweeper.go:47-91 | an unreadable root is an error and nothing changes; otherwise the store becomes SweptSecrets of the whole listing and no error is returned, even when renames fail |
| StoreSweeper.SweepSubfolder | store/store_sweeper.go:94-109 | each sub-folder is swept with its own age limit: lifetime + 1 minute, 24 h, 0, 24 h |
| StoreSweeper.Sweep | store/store_sweeper.go:18-45 | the five folder sweeps in order, stopping at the first error, give SweepSpec |
| StoreSweeper.SweepAt | store/store_sweeper.go:18-45 | one step of Sweep: it fails exactly when that folder is unreadable, and then the sweep's outcome is the store as it is with that folder reported; otherwise the rest of the sweep from the new store has the outcome the sweep from that step had |
| StoreSweeper.SweepAll | store/store_sweeper.go:18-45 | with every listing readable, a sweep is SweepSecrets, then being_accessed, accessed, expiring and expired |
| StoreSweeper.SweptFolderFrame | store/store_sweeper.go:111-128 | sweeping a sub-folder changes no other folder, and in it keeps exactly the directories and the files not past the limit, unchanged |
| StoreSweeper.SweptSecretsAt | store/store_sweeper.go:58-87 | an aged secret moves to expiring with an expiry record holding its first bytes, or stays with an empty record when its rename fails; any other root entry stays |
| StoreSweeper.SweepExpiresSecret | store/store_sweeper.go:18-109 | in one full sweep an aged secret is moved and then removed by the expiring sweep, since a rename keeps its mtime; only its expiry record is left, and no accessed record appears |
| StoreSweeper.SweepBoundsAges | store/store_sweeper.go:18-128 | after a full sweep no file in a sub-folder is past its folder's limit, and no aged secret is left in the root unless its rename failed |
| StoreSweeper.ExpiredRecordOfSecretFile | store/store_sweeper.go:74-84 | the expiry record of a well-formed secret file is its code |
| StoreSweeper.SweepKeepsWellFormed | store/store_sweeper.go:18-128 | a complete or interrupted sweep keeps secret files in their layout and every record a code or empty |
| StoreSweeper.SweptSecretReportsExpired | store/store_sweeper.go:58-87 | after a sweep has expired a secret, its code still opens its status, which says SecretExpired, and a read says SecretExpired too |
| HttpRoutes.ScanSound | handlers.go:23 | whatever the scanner accepts is a well-shaped ID followed by the rest of the text |
| HttpRoutes.ScanComplete | handlers.go:23 | every well-shaped ID, followed by anything, is scanned exactly as written |
| HttpRoutes.MatchAfterId | handlers.go:23-24 | a capture is a note ID, the path is `/notes/` + that ID, and what follows the ID is one of the allowed endings |
| HttpRoutes.MatchNote | handlers.go:23 | a capture of the note regex is an ID the path holds after `/notes/`, followed by nothing or `/` |
| HttpRoutes.MatchStatus | handlers.go:24 | a capture of the status regex is an ID followed by `/status` or `/status/` |
| HttpRoutes.MatchAfterIdSound | handlers.go:23-24 | a matched path is `/notes/`, an ID and an allowed ending, and the capture is that ID |
| HttpRoutes.MatchAfterIdComplete | handlers.go:23-24 | every such path matches, capturing its ID |
| HttpRoutes.NotePathMatches | handlers.go:23 | a path matches the note regex exactly when it is `/notes/` + an ID + an optional `/` |
| HttpRoutes.StatusPathMatches | handlers.go:24 | a path matches the status regex exactly when it is `/notes/` + an ID + `/status` + an optional `/` |
| HttpRoutes.RoutesDisjoint | handlers.go:120-127 | no path matches both regexes, so testing the status regex first hides no note path |
| HttpRoutes.RoutedIdHasFileName | handlers.go:158 | every routed ID decodes to 16 bytes and so has a non-empty file name |
| HttpRoutes.GeneratedUuidRoutes | handlers.go:23 | the IDs GenerateUuid prints are note IDs, and their note path matches with the ID as capture |
| HttpRoutes.DispatchCases | handlers.go:115-142 | GET and POST on note paths and GET on status paths reach their handlers with the path's ID; every other request is 404 |
| HttpRoutes.Dispatch | handlers.go:115-142 | a status poll is a GET whose path matches the status regex, a read a GET and a create a POST whose path matches the note regex, each with the captured ID; whatever reaches a handler carries a note ID |
| HttpRoutes.BadIdNotFound | handlers.go:24 | a status request for a non-hex ID is not found |
| HttpPaths.Split | handlers.go:77 | the pieces between slashes hold no slash, and there is at least one |
| HttpPaths.Clean | handlers.go:77 | `path.Clean` of a rooted path is a non-empty rooted path |
| HttpPaths.CleanShape | handlers.go:77 | a cleaned rooted path is `/` or a `/` before each of some clean names |
| HttpPaths.CleanIdempotent | handlers.go:77 | cleaning twice is cleaning once |
| HttpPaths.CleanWithSuffix | handlers.go:78 | a clean path other than `/` plus `.gz` is still clean |
| HttpPaths.Ext | handlers.go:86 | `filepath.Ext` is a suffix: empty, or a `.` followed by no `.` and no `/` |
| HttpPaths.NoExt | handlers.go:86 | when Ext finds nothing, the final name has no `.` |
| HttpPaths.GzipRewrite | handlers.go:70-97 | three cases: with `gzip` accepted and the `.gz` file present, the path becomes the cleaned path + `.gz`, which is clean, and exactly two headers are set, `Content-Encoding: gzip` and the type of the cleaned path's extension or `text/html; charset=utf-8` when it has none; with `gzip` accepted but no `.gz` file, and without `gzip`, the request passes on unchanged with no header |
| HttpPaths.GzPathClean | handlers.go:77-78 | the `.gz` path built from any request path is rooted and already clean |
| HttpPaths.GzipRoot | handlers.go:77-89 | for `/` the compressed file is `/index.html.gz`, typed as HTML unless the type table says otherwise |
| HttpPaths.MaybeGzip | handlers.go:70-97 | the path served is the request's or an existing file; headers are set only together with `Content-Encoding: gzip` on an existing file, and only when `gzip` is accepted |
| Handlers.ZeroBuffer | handlers.go:526-530 | every byte of the buffer is 0 afterwards, and the length is unchanged |
| Handlers.PostNoteSpec | handlers.go:144-180 | the store stays valid; a declared length over the limit leaves it untouched; the code header is sent exactly with 201 |
| Handlers.GetNoteSpec | handlers.go:182-216 | the store stays valid; a body is sent exactly with 200, and so is the code header |
| Handlers.NoteSpec | handlers.go:115-142 | the store stays valid; only a status poll can leave the request unanswered; a status poll and a 404 leave the store untouched |
| Handlers.PostNote | handlers.go:144-180 | the response and the new store are those of PostNoteSpec |
| Handlers.GetNote | handlers.go:182-216 | the response and the new store are those of GetNoteSpec |
| Handlers.GetNoteStatus | handlers.go:218-259 | the polling loop answers PollSpec, with a deadline 8 s after the start exactly when `X-Long-Poll` is `true` |
| Handlers.PollLoop | handlers.go:233-255 | the polling loop answers PollSpec: the first poll whose status is an error, or that comes after the deadline, decides the answer |
| Handlers.Note | handlers.go:115-142 | routing and handling give NoteSpec |
| Handlers.TooLargeMessage | handlers.go:283-287 | the 413 answer is JSON of type `secret_too_large` whose message names the limit, 16384 bytes |
| Handlers.JsonTextFields | handlers.go:283-298 | the error document carries the error's type and message as fields |
| Handlers.PostNoteResponses | handlers.go:144-180 | 201 exactly when the declared length is within the limit and Save stores the note; only 201 carries the code, which is then a human code stored with the note; an over-long declared length is 413 without calling Save; every status is 201, 403, 413, 500 or 507; no failure adds a file |
| Handlers.SaveFailureShape | handlers.go:159-176 | SecretTooLarge is 413, DuplicateId 403, StorageFull 507, any other error 500, none with a code |
| Handlers.GetNoteResponses | handlers.go:182-216 | 200 exactly when Retrieve returns the note: the body is the payload and the code comes with it; otherwise 403, 410, 404 or 500 with an empty body and no code |
| Handlers.PollDecides | handlers.go:232-256 | the loop answers at the first poll that is not waiting: 200 when Status was fine but the deadline had passed, the error's status otherwise |
| Handlers.PollNone | handlers.go:232-256 | the loop gives no answer only when every poll made was waiting |
| Handlers.PollSpec | handlers.go:232-258 | the polling loop of getNoteStatus; whatever it answers is a bare 200, 403, 404, 410 or 500 with the no-cache header |
| Handlers.ShortPoll | handlers.go:227-231 | without a long poll, the first poll after the start answers |
| Handlers.LongPollSeesRead | handlers.go:227-258 | a long poll by the code holder keeps waiting while the note is unread and live, and answers 403 once it has been read |
| Handlers.NoteRoutesNotePath | handlers.go:129-133 | a POST on a note path is postNote and a GET is getNote |
| Handlers.PostThenGetTwice | handlers.go:115-216 | through `note`: POST gives 201 with a human code, the first GET gives 200 with the note and the same code, and the second GET gives 403 |
| Handlers.NoteNeverCached | handlers.go:118 | every answer of `note` carries `Cache-Control: private, max-age=0, no-cache, no-store` |
| ResizeImages.Span | resize_images.rb:6 | `range.to_a`: the integers lo..hi in order |
| ResizeImages.BSearch | resize_images.rb:6 | `Array#bsearch` in find-minimum mode: an index it returns is in the array and satisfies the block |
| ResizeImages.Narrow | resize_images.rb:6 | one bisection step keeps a strictly smaller part of the range, the block holds just after the kept part and fails just before it |
| ResizeImages.BSearchProbeCount | resize_images.rb:6 | the search makes at most as many probes as the length has binary digits |
| ResizeImages.BSearchProbesInRange | resize_images.rb:6 | every probe lies in the searched part of the range |
| ResizeImages.BSearchFinds | resize_images.rb:6 | when the block holds on the last element, the search finds an index |
| ResizeImages.BSearchFirst | resize_images.rb:6 | with a monotone block, the search returns the first index where it holds, and none only when it holds nowhere |
| ResizeImages.TopFits | resize_images.rb:4-8 | a top quality within the budget is returned after that one probe |
| ResizeImages.QSearch | resize_images.rb:3-10 | the first probe is the top quality; the top is returned when it is within the budget; otherwise the result is `range.begin` or a quality whose size reaches the budget |
| ResizeImages.QSearchBounds | resize_images.rb:3-10 | the answer is in the range; the first probe is the top; at most 1 + Bits(length) probes, all in the range; when the top is over the budget, the fallback to `range.begin` is never taken and the chosen file reaches the budget |
| ResizeImages.QSearchSmallest | resize_images.rb:6 | with size growing with quality and the top over the budget, the result is the smallest quality whose size is at least the budget |
| ResizeImages.Widths | resize_images.rb:25 | ten widths, the k-th being 200(k+1) |
| ResizeImages.WidthsAre | resize_images.rb:25 | the widths are the multiples of 200 from 200 to 2000 |
| ResizeImages.Find | resize_images.rb:26 | a position Find returns is an occurrence of the pattern |
| ResizeImages.FindFirst | resize_images.rb:26 | Find succeeds exactly when the pattern occurs, and returns the first occurrence |
| ResizeImages.ResizeAll | resize_images.rb:24-48 | the outer loop's jobs are Jobs: the pictures of bubbles in order |
| ResizeImages.ResizePicture | resize_images.rb:25-47 | the inner loop's jobs are the ten widths of one picture |
| ResizeImages.ResizeWidth | resize_images.rb:26-38 | one width: the file names, the qsearch with `last_q` tracking, and one more compression exactly when the last probe was not the chosen quality |
| ResizeImages.RunProbes | resize_images.rb:31-35 | the block runs one compression per probe, in order, and `last_q` ends as the last probe, or nil when there was none |
| ResizeImages.JobSpec | resize_images.rb:26-38 | a job keeps its picture and width, and its last compression is at the chosen quality |
| ResizeImages.Bubbles | resize_images.rb:24 | the pictures processed are among the inputs and mention bubbles |
| ResizeImages.JobsLayout | resize_images.rb:24-25 | there are ten jobs per picture of bubbles, in the order picture by picture, width by width |
| ResizeImages.JobsFacts | resize_images.rb:24-38 | every job is for a picture of bubbles and one of the ten widths; its last compression is at the chosen quality, which lies in 18..36; at most seven compressions run |
| ResizeImages.JobSpecFacts | resize_images.rb:31-38 | after each width, the last compression used the chosen quality |
| ResizeImages.ResizedName | resize_images.rb:26 | `<stem>-fullsize.jpg` is resized to `<stem>-<width>.jpg` |
| ResizeImages.ScratchName | resize_images.rb:27 | its scratch file is `<stem>-tmp.jpg` |
| ResizeImages.SubMarker | resize_images.rb:26-27 | `sub` replaces the marker right after a stem without `.` |
| ResizeImages.Sub | resize_images.rb:26-27 | `sub` leaves a string without the pattern unchanged; otherwise the length changes by the replacement's length minus the pattern's |
| AnchorizeHeaders.DeleteQuotes | anchorize_headers.rb:8 | the result keeps no quote and adds no character |
| AnchorizeHeaders.Downcase | anchorize_headers.rb:8 | `downcase` keeps the length, leaves no upper-case letter, and keeps every other character |
| AnchorizeHeaders.Strip | anchorize_headers.rb:8 | `gsub(/^\W+\|\W+$/, "")` adds no character |
| AnchorizeHeaders.StripStep | anchorize_headers.rb:8 | at each position the scan moves forward; a skipped stretch holds only non-word characters, and a kept non-word character has a word character somewhere after it |
| AnchorizeHeaders.Collapse | anchorize_headers.rb:8 | `gsub(/-+/, "-")` adds no character, keeps the first and last characters, and leaves no `--` |
| AnchorizeHeaders.CollapseKeepsText | anchorize_headers.rb:8 | collapsing drops only `-` characters |
| AnchorizeHeaders.StripKeepsWord | anchorize_headers.rb:8 | a word character anywhere keeps the stripped text non-empty |
| AnchorizeHeaders.StripLast | anchorize_headers.rb:8 | the stripped text never ends with a non-word character |
| AnchorizeHeaders.StripFirst | anchorize_headers.rb:8 | nor starts with one |
| AnchorizeHeaders.SlugAlphabet | anchorize_headers.rb:8 | the slug uses only `a`–`z`, `0`–`9` and `-` |
| AnchorizeHeaders.SlugEdges | anchorize_headers.rb:8 | no `--`, no leading or trailing `-`, and an empty slug exactly when the text, quotes aside, has no word character |
| AnchorizeHeaders.QuotesDeleted | anchorize_headers.rb:8 | a quote is deleted, not hyphenated: the slug equals that of the text without it |
| AnchorizeHeaders.Slug | anchorize_headers.rb:8 | every character of the slug is a `-` or a character of the downcased text |
| AnchorizeHeaders.SlugFrom | anchorize_headers.rb:8 | the same for the pipeline itself: `_` and non-word characters become `-`, and nothing else is introduced |
| AnchorizeHeaders.SplitAnchor | anchorize_headers.rb:3 | the end the greedy wrapper pattern picks is a possible end of `<a …>`: a `>` with no `<` before it, followed by text and an optional `</a>` |
| AnchorizeHeaders.SplitAnchorLast | anchorize_headers.rb:3 | no possible end comes after the one picked, and there is none at all when none is picked (greedy backtracking) |
| AnchorizeHeaders.MiddleRender | anchorize_headers.rb:3 | the middle of a heading matches as its wrapper, text and `</a>` |
| AnchorizeHeaders.MiddleSound | anchorize_headers.rb:3 | what matches in the middle is a wrapper, text and `</a>` that render back to it |
| AnchorizeHeaders.MatchRender | anchorize_headers.rb:3-4 | matching a well-formed heading gives back its level, wrapper, text, `</a>` and closing digit |
| AnchorizeHeaders.RenderMatch | anchorize_headers.rb:3-4 | whatever matches is a well-formed heading that renders back to the matched text |
| AnchorizeHeaders.MatchHeading | anchorize_headers.rb:3-4 | a match is a tagged heading, and its level and closing digit are the digits after `<h` and before the last `>` |
| AnchorizeHeaders.AttributesPlain | anchorize_headers.rb:8-9 | the slug and the generated attributes hold no `<` |
| AnchorizeHeaders.RewriteRenders | anchorize_headers.rb:5-9 | the output is a heading of the opening level in both tags: level 1 gets `href=""` and no name; other levels get `name="S" href="#S"` with the same slug S; the text sits between `<a …>` and `</a>` |
| AnchorizeHeaders.Rewrite | anchorize_headers.rb:5-9 | the replacement opens with `<h` + the level + `><a ` and ends with `</a></h` + the level + `>` |
| AnchorizeHeaders.Anchorize | anchorize_headers.rb:3-10 | a matched heading is rewritten to an anchor of its opening level; text is changed only when it matches |
| AnchorizeHeaders.AnchorizeRender | anchorize_headers.rb:3-10 | an existing wrapper, the `</a>` and the closing digit do not reach the output: it depends only on the opening level and the text |
| AnchorizeHeaders.NotHeadingUnchanged | anchorize_headers.rb:3 | text that is no well-formed heading, for instance one with a `<` inside, is left unchanged |
| AnchorizeHeaders.AnchorizeIdempotent | anchorize_headers.rb:3-10 | rewriting twice is rewriting once when the text has no `>` before its last character |

## Left out

- I/O and external commands are not modelled. This covers `hdiutil`, `newfs_hfs`, `mount`/`umount`, `df`, `free`, `rm`, `convert`, `sips`, ImageOptim and `stat`. Their outputs or outcomes are parameters. RAM-disk creation (`setupRamDisk`) is out.
- Setup: line 82 of store/store.go tests for the `expired` folder before it creates `expiring`. On a fresh RAM disk both are missing, so the model's fresh store is the same. A disk that already has `expired` but lacks `expiring` is not modelled.
- Concurrency is out: the `SweepContinuously` goroutine, the 50 ms and 300 ms sleeps, and the request counters. `LocateSecretAndCode` keeps its three attempts, but on an unchanging store the retries cannot find anything new. The races they tolerate are out.
- SHA-256 and `crypto/rand` are parameters. The model does not say the hash is collision-free.
- Time: `Save` never reads the clock; only the file system stamps the new file's mtime, modelled as `env.now`. `Retrieve` reads it once (store/store.go:248), as modelled.
- StoreSweeper.Sweep: one `now` serves all five steps, whereas the Go code reads the clock in SweepSecrets (store/store_sweeper.go:55) and again in each sweepFolder (store/store_sweeper.go:118). Sweep is a loop over the folder order, where the Go code makes five calls in a row; the order and the stop at the first error are the same.
- Handlers.PollSpec: each poll has one `now`, used both for Status's age test (store/store.go:339) and for the deadline test (handlers.go:251); the Go code reads the clock for each.
- StoreCodes.TrimSpace: only ASCII white space is trimmed. Go's `strings.TrimSpace` also trims Unicode spaces such as U+0085 and U+00A0, so a root file not written by Save may give a different code line.
- Save's own scratch buffer is modelled by its size only (BodyRoom); its zeroing loop is not modelled (store/store.go:128-133). It is invisible once Save returns. Only the caller's buffer of `Retrieve` is an array.
- `zeroRequestBuffer` and `zeroResponseBuffer` are not modelled; they reach into Go's runtime through `reflect`/`unsafe`. Memory clearing cannot be stated in Dafny.
- File-system errors other than those below are not modelled: permissions, a failed open after a successful rename, a partial file after a failed write. Those that are modelled:
  - a missing file on rename;
  - a too-short secret file;
  - the write outcome of a new secret;
  - an unreadable listing during a sweep;
  - a failed rename in SweepSecrets.
- The sweeper sees a `ReadDir` listing as a set. The order in which entries are handled does not change the outcome.
- SecretStore.AvailableMemory: a `freeSpace` panic (too few matches) is not passed through `AvailableMemory`; the parsers return it as `IndexOutOfRange`.
- The HTTP plumbing is not modelled: the mux and `Cache1Day`, the request counter, `AddHSTSHeader`, `RedirectToHTTPSHandler`, TLS, `main.go`, `publicPath` and `projectPath`, `/free_space` and its MB formatting (a float). Header-name canonicalisation is out too. `http.NotFoundHandler`'s body is out; its 404 status is kept.
- HttpPaths.MaybeGzip: `mime.TypeByExtension` is a parameter, and `root.Open` is the set of existing paths.
- ResizeImages.JobSpec: `compress` is the size oracle `(picture, width, quality) -> size`. Its float division by 1024 is left to the oracle, and so are the files it writes, `puts`, and `File.unlink` of the scratch file.
- ResizeImages.ResizedName: the file-name lemmas assume a stem without `.`. With a `.` earlier in the path, `sub` could match there instead. Find and Sub themselves are exact.
- AnchorizeHeaders.Downcase: `downcase` is modelled on ASCII letters only. Ruby also folds other letters, such as `İ` or the Kelvin sign. `\w` and `\W` are ASCII-only in Ruby, as modelled.
- AnchorizeHeaders.Anchorize models the block for one matched candidate. The whole-document `gsub` scan that finds the candidates is out, and so are `puts`, reading the file and writing it back.
- AnchorizeHeaders.AnchorizeIdempotent: idempotence is proved only for text without `>` before its last character. With such a `>`, the greedy wrapper pattern reads part of the text as attributes on the second pass.
- The qsearch result follows the code. It is the smallest quality whose size is at least the budget, not the largest quality under it.
- The Linux build of `store_linux.go` does not fit `store.go`: `setupRamDisk` returns two values, and `s.DiskPath` is not a field of `Store`. Only its parser, its headroom and its `Teardown` decisions are modelled.
