# RustaSea, modelled in Dafny

RustaSea is a web framework in Rust. This project models the parts of it that are algorithms and
protocols rather than glue, and proves what they are for. Classes stand for the objects the program
updates in place; state machines over their operations stand for concurrent use.

| file | models |
|---|---|
| `Cycles.dfy`, `WorkspaceGraph.dfy` | the workspace check for circular crate dependencies: a three-colour depth-first search |
| `Percent.dfy`, `Decimal.dfy`, `Delimited.dfy`, `SignedUrl.dfy`, `SignedUrlCheck.dfy`, `Base64.dfy` | signed links: percent coding (sections 2.1 and 2.3 of RFC 3986), the signed payload, printing, parsing and verifying, and the base64 key decoder (sections 4 and 5 of RFC 4648) |
| `CacheStore.dfy`, `LeaseLock.dfy`, `CacheKeys.dfy` | the in-memory cache store with lazy expiry, the lease lock above it, and the derivation of stored keys |
| `CsvExport.dfy`, `ChunkedImport.dfy` | the streaming and the buffered CSV export, and the chunked import |
| `AuthLog.dfy` | the authentication log: logout accounting and new-device notices |
| `ProfilerSlot.dfy` | the profiler's process-wide slot, contexts and ring |
| `ToolRank.dfy`, `ActivityQuery.dfy`, `TypeText.dfy` | BM25 tool ranking, the audit query builder, the normalizer of type text |
| `Text.dfy`, `Ordering.dfy` | bytes, UTF-8 (RFC 3629), orders and sorting |

Text is bytes, with UTF-8 as a predicate; the keyed tag is a function parameter, tokens and row ids
are parameters that a run requires to be fresh, and clocks are integers passed in. An operation that
changes state is a method proved against a function of the old state; the lemmas about runs are
about those functions.

`dafny verify dfyconfig.toml` checks everything.

## Where the code and its description part

The model follows the code. Where a property fails, there is an input that shows it, or a general
one, and a lemma that says exactly when it holds.

- A logout closes every open row that matches, not only the most recent login
  (`crates/rustasea-authlog/src/recorder.rs:122-143`). It differs from its description
  for two open rows, `AuthLog.ClosesBoth`, and agrees with it exactly when at most one open row
  matches, `AuthLog.ClosesLatestOnlyIff`.
- A logout that matches nothing leaves a row that counts as successful, so the first login from its
  address goes unannounced: `AuthLog.LogoutSuppressesNotice`, and exactly when, one event at a time,
  `AuthLog.FirstMarkDecides`.
- New-device notices are sent at most once, not at least once: `AuthLog.OverlapLosesNotice`, and
  exactly when over every interleaving `AuthLog.AnnouncedIff`.
- `with_context` encodes values, not context keys, so two maps can share a segment:
  `CacheKeys.ShortestCollision`, and exactly when `CacheKeys.KeyCollidesIff` and
  `CacheKeys.TellsApartIff`. A key with a colon can be taken to end its context:
  `CacheKeys.ScopesApartIff`. Plain keys are safe: `CacheKeys.PlainKeysApart`.
- An empty context at the bottom of a nesting disappears: `CacheKeys.EmptyBaseCollides`. Scoped and
  unscoped keys, and keys of different nestings, can meet: exactly when, `CacheKeys.StoredKeysMeetIff`
  and `CacheKeys.CanMeetIff`.
- Writes to a lock's own key can break the lock: `LeaseLock.FlushBreaksExclusion`, and exactly which
  and when `LeaseLock.InterferenceBreaksIff`.
- The profiler's slot is shared by concurrent requests, so a profile can hold another request's work
  or miss some of its own: `ProfilerSlot.OverlapMisattributes`, and exactly when
  `ProfilerSlot.OwnWorkIff`.
- Blank import headers fall back to generated names, which a real header can be spelled like; a cell
  is lost then, `ChunkedImport.FallbackClashes`, and exactly then, `ChunkedImport.NothingDroppedIff`.
- `sign_expiring` casts an unsigned lifetime to a signed one, so very long lifetimes give links that
  have already expired: `SignedUrlCheck.LifetimeWraps`, and exactly when
  `SignedUrlCheck.FreshLinkVerifies`.
- `sign` accepts repeated and reserved parameter names that `verify` then refuses:
  `SignedUrlCheck.RepeatedNameRefused`, and exactly those, `SignedUrlCheck.VerifySigned`.
- Streaming and buffered export agree on what succeeds, but can name different errors:
  `CsvExport.DifferentErrors`, and exactly when `CsvExport.StreamedIsBuffered`.
- `with_table` takes any text; a name with a space gives a statement that selects nothing:
  `ActivityQuery.StatementSelectsWanted`.
- "The tag function is injective" cannot hold of 32-byte tags, so `SignedUrlCheck.TamperEvident`
  says "same content, or two payloads with one tag" instead.

## Model

| member | source | states |
|---|---|---|
| `Cycles.FindCycle` | xtask/src/cycles.rs:136-155 | `None` if and only if the graph has no directed cycle; `Some` carries a closed walk along real edges that repeats no node but its first. For every finite graph, neighbours that are no keys and self-edges included |
| `Cycles.Search.Visit` | xtask/src/cycles.rs:160-195 | from a white node hanging off the path: a simple cycle, or the path restored, the node finished, everything finished before still finished and strictly fewer white nodes (which is why the recursion ends) |
| `Cycles.Enter` | xtask/src/cycles.rs:166-167 | colouring a white node gray and pushing it keeps: gray is exactly the path, black exactly what finished, the path a repetition-free walk, finished nodes closed under edges to keys |
| `Cycles.Leave` | xtask/src/cycles.rs:192-193 | colouring black and popping keeps the same, once every key-neighbour has finished |
| `Cycles.SliceIsCycle` | xtask/src/cycles.rs:173-181 | the path cut at the gray node the walk came back to, closed with that node, is a simple cycle |
| `Cycles.FinishedIsAcyclic` | xtask/src/cycles.rs:140-155 | when every key has finished the graph has no cycle |
| `WorkspaceGraph.Members` | xtask/src/cycles.rs:119-134 | exactly the names of packages whose id is a workspace member, entries without id or name skipped |
| `WorkspaceGraph.LocalDependencies` | xtask/src/cycles.rs:99-109 | the names a package lists without a registry or git source, that are members and not itself: strictly ascending, each once |
| `WorkspaceGraph.BuildGraph` | xtask/src/cycles.rs:85-116 | its edges are exactly the local dependencies between members, where a later package of one name replaces an earlier one |
| `WorkspaceGraph.CheckCycles` | xtask/src/cycles.rs:58-76 | a cycle is reported if and only if some members depend on each other in a ring; what is reported is such a ring, of at least two members |
| `Decimal.ParsePrinted` | crates/rustasea-auth/src/signed_url.rs:229-236 | printing and then parsing is the identity on every signed 64-bit integer (the expiry of a link; the counter of the cache) |
| `Decimal.ParsedIff` | crates/rustasea-auth/src/signed_url.rs:229-236 | exactly an optional sign and then digits, at least one, of a number in range are parsed, each to its number |
| `Text.Utf8Iff` | crates/rustasea-auth/src/signed_url.rs:386-388 | text is exactly the encoding of a sequence of Unicode scalar values in one to four octets each |
| `Percent.PercentEncode` | crates/rustasea-auth/src/signed_url.rs:347-358 | computes the percent-encoding the lemmas below are about |
| `Percent.PercentDecode` | crates/rustasea-auth/src/signed_url.rs:361-388 | computes the decoding the lemmas below are about: truncated escape, bad digit and bytes that are not UTF-8 are three different errors, the first one met wins |
| `Percent.DecodeEncoded` | crates/rustasea-auth/src/signed_url.rs:347-388 | decoding undoes encoding for every UTF-8 text |
| `Percent.EscapeIs` | crates/rustasea-auth/src/signed_url.rs:347-358 | the unreserved characters of section 2.3 of RFC 3986 stand for themselves, every other octet for `%` and two upper-case digits |
| `Percent.OctetsIff` | crates/rustasea-auth/src/signed_url.rs:361-385 | a text decodes to these octets, or with this error, if and only if it is made of plain octets and escapes that stand for them, or of such and a break of that kind |
| `Percent.HexOctetsIff` | crates/rustasea-auth/src/signed_url.rs:256-258 | hex text is two digits an octet, the high one first, in either case, to its end |
| `Percent.EncodedAlphabet` | crates/rustasea-auth/src/signed_url.rs:346-358 | an encoding consists of unreserved characters, `%` and nothing else: no `&`, `=`, newline or `?` |
| `SignedUrl.CanonicalPayload` | crates/rustasea-auth/src/signed_url.rs:302-318 | pushes exactly the text `PayloadDetermines` is about: path, expiry and sorted pairs, a line each |
| `SignedUrl.PayloadDetermines` | crates/rustasea-auth/src/signed_url.rs:302-318 | two payloads are equal if and only if path, expiry and the multiset of pairs are equal |
| `SignedUrl.PayloadLines` | crates/rustasea-auth/src/signed_url.rs:302-318 | line by line: encoded path, expiry in digits, `name=value` for each pair in order, and nothing after the last newline |
| `SignedUrl.Sign` | crates/rustasea-auth/src/signed_url.rs:155-178 | the sorted pairs, then expiry, then the hex tag of the payload, joined into one query |
| `SignedUrl.FragmentParts` | crates/rustasea-auth/src/signed_url.rs:155-178 | parameter by parameter: the pairs in order, then `expires=` and `signature=` with expiry and hex tag |
| `SignedUrlCheck.ParseQuery` | crates/rustasea-auth/src/signed_url.rs:323-344 | computes the parse `QueryRoundTrip` and `ParseSigned` are about, errors included: empty segment, missing `=`, bad escapes |
| `SignedUrlCheck.ParsesIff` | crates/rustasea-auth/src/signed_url.rs:323-344 | a query parses to pairs if and only if its parts spell them, one each, after an optional `?`; it fails if and only if the first part that spells none is empty, has no `=` or does not decode, with that error |
| `SignedUrlCheck.QueryRoundTrip` | crates/rustasea-auth/src/signed_url.rs:323-358 | printing any non-empty list of text pairs as a query and parsing it gives the same list |
| `SignedUrlCheck.ParseSigned` | crates/rustasea-auth/src/signed_url.rs:155-178 | parsing what `sign` returns gives the sorted pairs, then expiry and signature |
| `SignedUrlCheck.Verify` | crates/rustasea-auth/src/signed_url.rs:207-271 | computes the verdict the lemmas below are about, with every error and their order: key, query, signature, expiry present, tag, time |
| `SignedUrlCheck.VerdictIff` | crates/rustasea-auth/src/signed_url.rs:207-271 | for every signer, path, query and clock: `Ok`, or `Expired`, if and only if there is a key, the query parses, no name repeats, one `expires` is an integer and the hex `signature` is the tag over path, expiry and all other pairs; and the clock has not, or has, passed the expiry |
| `SignedUrlCheck.RefusalIff` | crates/rustasea-auth/src/signed_url.rs:207-271 | when each of the other verdicts is given: no key, no signature, a signature that is not the tag |
| `SignedUrlCheck.VerifySigned` | crates/rustasea-auth/src/signed_url.rs:207-271 | a signed link is `Ok` until its expiry and `Expired` after it, if and only if the extra names are distinct and not reserved; otherwise it is `Malformed` |
| `SignedUrlCheck.RepeatedNameRefused` | crates/rustasea-auth/src/signed_url.rs:207-246 | a link signed with one name twice never parses |
| `SignedUrlCheck.FragmentForgetsOrder` | crates/rustasea-auth/src/signed_url.rs:160-169 | reordering the extra pairs does not change the signed fragment |
| `SignedUrlCheck.TamperEvident` | crates/rustasea-auth/src/signed_url.rs:207-271 | a query that passes the comparison with the tag of a signed link has that link's path, expiry and pairs, or the tag function gives one tag to two different payloads |
| `SignedUrlCheck.SignExpiring` | crates/rustasea-auth/src/signed_url.rs:182-193 | signs for the saturated sum of the clock and the lifetime cast to a signed integer, and refuses an empty key |
| `SignedUrlCheck.FreshLinkVerifies` | crates/rustasea-auth/src/signed_url.rs:182-193 | a link signed for `ttl` seconds is good when minted if and only if `ttl` fits a signed integer or the clock stands at the least instant; when it fits, the link is good exactly until clock plus `ttl` |
| `SignedUrlCheck.LifetimeWraps` | crates/rustasea-auth/src/signed_url.rs:182-193 | a link signed at instant 0 for 2^63 seconds has expired when minted |
| `Base64.Base64Decode` | crates/rustasea-auth/src/signed_url.rs:416-444 | the loop over the truncating 32-bit buffer returns the octets of the bits that the characters up to the first `=` spell, and each error exactly where it belongs |
| `Base64.RefusedIff` | crates/rustasea-auth/src/signed_url.rs:416-444 | refused are exactly the first character of neither alphabet before any padding, and, if there is none, a length before the padding of 1 modulo 4 |
| `Base64.SextetIff` | crates/rustasea-auth/src/signed_url.rs:424-431 | exactly the characters of the two alphabets are read, each as its place there |
| `Base64.CharacterIs` | crates/rustasea-auth/src/signed_url.rs:424-431 | the alphabets are those of tables 1 and 2 of RFC 4648 |
| `Base64.AcceptedIs` | crates/rustasea-auth/src/signed_url.rs:432-444 | the octets are the bits of the sextets, as far as they make whole octets |
| `Base64.DecodeUndoesEncode` | crates/rustasea-auth/src/signed_url.rs:416-444 | decoding inverts the encoders of RFC 4648 sections 4 and 5, padded or not, for every octet string |
| `Base64.AlphabetTextDecodes` | crates/rustasea-auth/src/signed_url.rs:416-444 | text of the two alphabets decodes if and only if its length is not 1 modulo 4, to six bits a character rounded down |
| `Base64.AppKeyRoundTrip` | crates/rustasea-auth/src/signed_url.rs:405-412 | every key can be configured: in base64 behind the prefix always, verbatim unless it begins with the prefix |
| `CacheStore.MemoryStore.Get` | crates/rustasea-cache/src/memory.rs:57-60 | refines the step of the store machine: state after and value returned |
| `CacheStore.MemoryStore.Put` | crates/rustasea-cache/src/memory.rs:63-68 | refines the step of the store machine; a zero lifetime means forever |
| `CacheStore.MemoryStore.PutIfAbsent` | crates/rustasea-cache/src/memory.rs:71-80 | refines the step of the store machine; a dead entry counts as absent |
| `CacheStore.MemoryStore.CompareAndDelete` | crates/rustasea-cache/src/memory.rs:86-95 | refines the step of the store machine; only a live entry with the expected value goes |
| `CacheStore.MemoryStore.Touch` | crates/rustasea-cache/src/memory.rs:98-108 | refines the step of the store machine; only a live entry gets a new deadline |
| `CacheStore.MemoryStore.Increment` | crates/rustasea-cache/src/memory.rs:128-149 | refines the step of the store machine: a value that is no integer is an error and changes nothing, a new number never expires |
| `CacheStore.StepRefines` | crates/rustasea-cache/src/memory.rs:46-149 | one operation on the lazy map answers as on the ideal map of live entries, and leaves the same live entries |
| `CacheStore.LazyIsIdeal` | crates/rustasea-cache/src/memory.rs:20-149 | over every run with a clock that never goes back, the lazily expiring store answers exactly as one that drops each entry at its expiry instant |
| `CacheStore.OutputsAreHistory` | crates/rustasea-cache/src/memory.rs:46-149 | over every run from the empty store each operation answers what the history of its key says: the last operation to have an effect on the key decides, and what was put at `s` for `ttl` is there before `s + ttl` and not from then on |
| `CacheStore.LivesExactly` | crates/rustasea-cache/src/memory.rs:20-25 | after a put, a put-if-absent that stored or a touch that found something, at `s`, and nothing else done to the key, a `get` at `t` finds the value if and only if `ttl` is zero or `t < s + ttl` |
| `CacheStore.IncrementsAccumulate` | crates/rustasea-cache/src/memory.rs:128-149 | any sequence of increments of a missing or expired key reports the running total, through the decimal text stored in between |
| `CacheStore.GetLinearizes` | crates/rustasea-cache/src/memory.rs:46-60 | a `get` that reads its clock before taking the lock answers what the ideal store answers at some instant between the two |
| `LeaseLock.LockGuard.Release` | crates/rustasea-cache/src/lock.rs:124-134 | a guard deletes at most once and only an entry under its own token |
| `LeaseLock.Lock.Get` | crates/rustasea-cache/src/lock.rs:47-63 | one attempt is one put-if-absent under a fresh token; a guard comes back exactly when it was stored |
| `LeaseLock.Lock.Block` | crates/rustasea-cache/src/lock.rs:69-84 | returns at the first attempt that finds no live entry, or fails at the first failed attempt made once the wait has passed; every earlier attempt failed within the wait |
| `LeaseLock.StepKeepsInv` | crates/rustasea-cache/src/lock.rs:47-150 | every enabled action (acquire, give up, delayed delete, clock tick, any store operation that leaves what is live under the key as it is) keeps: the live entry is the one outstanding lease, and the other way round |
| `LeaseLock.MutualExclusion` | crates/rustasea-cache/src/lock.rs:47-150 | at every moment of every run at most one unreleased guard has a running lease, and the live entry carries its token and deadline |
| `LeaseLock.HolderKeepsHolding` | crates/rustasea-cache/src/lock.rs:124-150 | no action but its own release, and no late delete of an earlier owner, takes the lock from a guard whose lease runs |
| `LeaseLock.LeaseLasts` | crates/rustasea-cache/src/lock.rs:47-63 | an unreleased guard acquired at `s` holds at `t` if and only if `ttl` is zero or `t < s + ttl` |
| `LeaseLock.AcquireSucceedsIff` | crates/rustasea-cache/src/lock.rs:47-63 | at every moment of every run an attempt succeeds if and only if no lease is outstanding |
| `LeaseLock.CanBreakIff` | crates/rustasea-cache/src/lock.rs:47-150 | wherever tokens are their owners' own: some way on ends with two holders if and only if two hold already or a holder is without protection: nothing live under the key, an entry that dies before the lease, or one under a token another guard is yet to delete |
| `LeaseLock.InterferenceBreaksIff` | crates/rustasea-cache/src/lock.rs:47-150 | so at every moment of every run in which anyone may do anything to the lock's key, however often |
| `LeaseLock.NextAcquireBreaksIff` | crates/rustasea-cache/src/lock.rs:47-63 | the very next acquire makes a second holder if and only if a guard holds and nothing is live under the key any more |
| `LeaseLock.FlushBreaksIff` | crates/rustasea-cache/src/memory.rs:118-122 | after a flush two clients can come to hold if and only if one holds already |
| `LeaseLock.FlushBreaksExclusion` | crates/rustasea-cache/src/memory.rs:118-122 | one run in which it comes to that |
| `CacheKeys.SegmentDetermines` | crates/rustasea-cache/src/repository.rs:285-306 | while no key is ambiguous (a name, `=`, an encoded value, `&` and a name that sorts after the first), two segments are equal if and only if the maps are, whatever the values and the iteration order |
| `CacheKeys.KeyCollidesIff` | crates/rustasea-cache/src/repository.rs:286-295 | a key on its own, under whatever value, shares its segment with another map if and only if it is ambiguous |
| `CacheKeys.ShortestCollision` | crates/rustasea-cache/src/repository.rs:286-295 | `a=&b` alone and `a` with `b` share a segment |
| `CacheKeys.TellsApartIff` | crates/rustasea-cache/src/repository.rs:286-295 | for any rule on keys that admits the names a key can be cut into: all maps are told apart by their segments if and only if the rule admits no ambiguous key |
| `CacheKeys.StoredKeySpells` | crates/rustasea-cache/src/repository.rs:285-323 | the stored key is the prefix, then each context that leaves a trace (an empty one is swallowed by the next) and a colon, then the user key; for any maps |
| `CacheKeys.StoredKeysMeetIff` | crates/rustasea-cache/src/repository.rs:285-323 | two nestings of any depth, none included, meet in one stored key if and only if, of the contexts that leave a trace, one's begin the other's and its user key spells the rest |
| `CacheKeys.StoredKeyDetermines` | crates/rustasea-cache/src/repository.rs:285-323 | where equally many contexts leave a trace, the stored key determines each of them and the user key, and nothing else goes into it |
| `CacheKeys.CanMeetIff` | crates/rustasea-cache/src/repository.rs:296-323 | some user keys make two nestings meet if and only if, of the contexts that leave a trace, one's begin the other's; at one depth this takes swallowed empty contexts |
| `CacheKeys.EmptyBaseCollides` | crates/rustasea-cache/src/repository.rs:296-299 | an empty context below `a` meets `a` below `b` |
| `CacheKeys.ScopesApartIff` | crates/rustasea-cache/src/repository.rs:285-323 | at any depth, for any rule on keys that admits the names a key can be cut into: scoped keys never meet if and only if the rule admits no ambiguous key and none that can be taken to end a context at a colon |
| `CacheKeys.PlainKeysApart` | crates/rustasea-cache/src/repository.rs:285-323 | keys that do not begin with a colon and in which neither `&` nor a colon follows a `=` keep scoped keys apart at any depth |
| `CacheKeys.UnscopedNeverMeets` | crates/rustasea-cache/src/repository.rs:318-323 | a user key without a colon, in no context, never meets a key in a context, whatever the maps |
| `CsvExport.ExportBuilder.StreamCsv` | crates/rustasea-excel/src/export.rs:167-218 | writes the header and a record for each row up to the first that fails; error, records, row count and progress trace are those of `Streamed` |
| `CsvExport.ExportBuilder.Prepare` | crates/rustasea-excel/src/export.rs:268-286 | collects rows up to the first that does not serialize or gives no headers; headers come from the first row only if none were set |
| `CsvExport.ExportBuilder.RenderCsv` | crates/rustasea-excel/src/export.rs:349-372 | lays collected rows out up to the first that does not fit, reporting progress on the way |
| `CsvExport.ExportBuilder.BufferCsv` | crates/rustasea-excel/src/export.rs:111-123 | collecting and then laying out returns `Buffered`, with its progress trace |
| `CsvExport.StreamedIsBuffered` | crates/rustasea-excel/src/export.rs:167-218 | streaming and buffering succeed on the same rows and return the same sheet; they return the same error too, if and only if no misfit row comes before a row that does not prepare |
| `CsvExport.SheetIs` | crates/rustasea-excel/src/export.rs:305-372 | what an export returns, from the rows alone: the first row that does not serialize, cannot name the columns or does not fit them, with that error; or else the columns, then each row's record, with in each column the value of the field of that name, or blank |
| `CsvExport.FirstRowAsItIs` | crates/rustasea-excel/src/export.rs:305-347 | under headers of its own the first row is written as its names and then its values, in order |
| `CsvExport.MilestonesAre` | crates/rustasea-excel/src/export.rs:439-445 | the counts reported are the multiples of the chunk size among the row counts, in order |
| `CsvExport.DifferentErrors` | crates/rustasea-excel/src/export.rs:167-218 | a misfit row before one that does not serialize: the two exports name different errors |
| `CsvExport.NeverRagged` | crates/rustasea-excel/src/export.rs:332-372 | every record of a successful export is as long as the layout |
| `ChunkedImport.ImportBuilder.Run` | crates/rustasea-excel/src/import.rs:152-192 | from the source itself: which names the columns have and which row is skipped; on success a total of all other rows, the values of exactly those the judge accepts, in order, cut into chunks, and for each other row its complaints under its number in the source; and for each error, where it comes from and what was delivered before |
| `ChunkedImport.ResolvedHeaderIs` | crates/rustasea-excel/src/import.rs:241-263 | explicit columns, or a header row's names, or none; a header row is skipped, read or not; an empty source or an unreadable header row is an error only where the header is needed |
| `ChunkedImport.AcceptRow` | crates/rustasea-excel/src/import.rs:266-287 | fills the object cell by cell and returns the value, or the faults under the physical row number |
| `ChunkedImport.ChunkedIsExact` | crates/rustasea-excel/src/import.rs:163-191 | chunks concatenate to the rows, none is empty, all but the last are full |
| `ChunkedImport.FaultsAscend` | crates/rustasea-excel/src/import.rs:170-182 | fault row numbers never decrease and lie within the rows read, the header row counted |
| `ChunkedImport.NothingDroppedIff` | crates/rustasea-excel/src/import.rs:302-313 | under a resolved header a row keeps all its cells if and only if no two named headers agree and none is spelled like the fallback name of an unnamed column; then each cell is found under its own name |
| `ChunkedImport.FallbackClashes` | crates/rustasea-excel/src/import.rs:302-313 | a blank header behind one spelled like its fallback loses a cell |
| `AuthLog.AuthenticationLogLogger.Record` | crates/rustasea-authlog/src/recorder.rs:75-88 | the table and the notices after one event, for a database that answers the lookup or does not |
| `AuthLog.AuthenticationLogLogger.RecordLogout` | crates/rustasea-authlog/src/recorder.rs:127-174 | every matching open row is closed; a standalone row is added exactly when none was |
| `AuthLog.AuthenticationLogLogger.NotifyNewDevice` | crates/rustasea-authlog/src/recorder.rs:177-237 | a notice goes out exactly for an identified login whose lookup answers that no other successful row exists |
| `AuthLog.LogoutAccounts` | crates/rustasea-authlog/src/recorder.rs:127-174 | a known user's logout leaves that user no open row, touches nobody else's row, removes none, and adds one exactly when there was nothing to close |
| `AuthLog.LogoutIs` | crates/rustasea-authlog/src/recorder.rs:127-174 | every logout, whatever is known of it: the open rows of its user, or else of its email, are closed; no other row changes; a row of its own is added exactly when there was none of them |
| `AuthLog.EventIs` | crates/rustasea-authlog/src/recorder.rs:91-119 | any other event adds one open row with its fields, successful for a login only, and changes none |
| `AuthLog.ClosesLatestOnlyIff` | crates/rustasea-authlog/src/recorder.rs:122-143 | the update does what its description says, closing only the latest matching open row, if and only if at most one open row matches |
| `AuthLog.ClosesBoth` | crates/rustasea-authlog/src/recorder.rs:122-143 | two open logins of one user: the logout closes both |
| `AuthLog.ServedAloneIsRecorded` | crates/rustasea-authlog/src/recorder.rs:75-237 | from any world, under a fresh id, a request's statements run with nothing in between do to table and notices what the logger's methods do: the interleaved machine takes the logger's steps |
| `AuthLog.StepKeepsInv` | crates/rustasea-authlog/src/recorder.rs:75-237 | each step of any request keeps: every notice sent or due is for the earliest successful row of its user and address |
| `AuthLog.NotifiedAtMostOnce` | crates/rustasea-authlog/src/recorder.rs:75-237 | in every interleaving of requests, at most one notice per user and address |
| `AuthLog.NoticesAreForFirstRows` | crates/rustasea-authlog/src/recorder.rs:177-237 | in every interleaving a notice is for the first successful row of its user and address |
| `AuthLog.AnnouncedIff` | crates/rustasea-authlog/src/recorder.rs:75-88 | over every run whose requests are finished: there is a notice for a user and address if and only if the first successful row of theirs is a login's and that login's lookup was answered before a second such row was inserted; the notice is that login's |
| `AuthLog.OverlapLosesNotice` | crates/rustasea-authlog/src/recorder.rs:75-88 | two overlapping first logins that both go unannounced: at most once is not at least once |
| `AuthLog.RunAccounts` | crates/rustasea-authlog/src/recorder.rs:75-174 | at every moment of every run the rows, with those still to be inserted, are as many as the logins, failures and lockouts begun and the logouts that matched no open row when their update ran |
| `AuthLog.RunGrows` | crates/rustasea-authlog/src/recorder.rs:75-174 | over any stretch of any run no row is removed, reordered or rewritten, except to be closed once |
| `AuthLog.LogoutClosesAll` | crates/rustasea-authlog/src/recorder.rs:127-143 | in every interleaving, right after the update of a known user's logout that user has no open row |
| `AuthLog.LogoutUpdates` | crates/rustasea-authlog/src/recorder.rs:127-143 | in every interleaving the update of a logout closes its user's, or else its email's, open rows and no others, and leaves a row to insert exactly when there was none |
| `AuthLog.AddedIs` | crates/rustasea-authlog/src/recorder.rs:91-174 | in every interleaving these rows, and those of the other events, are all that is ever added, with these fields |
| `AuthLog.SequentialNotice` | crates/rustasea-authlog/src/recorder.rs:177-237 | recorded in one go, a login notifies if and only if no earlier successful row has its user and address |
| `AuthLog.FirstMarkDecides` | crates/rustasea-authlog/src/recorder.rs:177-237 | over any sequence of events one at a time, exactly one notice if the first to leave a successful row is a login, from that login; none otherwise |
| `AuthLog.LogoutSuppressesNotice` | crates/rustasea-authlog/src/recorder.rs:146-174 | an unmatched logout leaves a row that counts as successful, and the first login from its address is not announced |
| `ProfilerSlot.SlotHoldsLatest` | crates/rustasea-debugbar/src/context.rs:179-215 | in every interleaving the slot holds the most recently started request if it has not cleared it, and nothing otherwise |
| `ProfilerSlot.EntriesConserved` | crates/rustasea-debugbar/src/context.rs:97-145 | in every interleaving what a request has taken and still collects is what was pushed to it, in order |
| `ProfilerSlot.RecordedOnce` | crates/rustasea-debugbar/src/middleware.rs:49-68 | in every interleaving a request has one profile once it has recorded and none before, holding the lists it took |
| `ProfilerSlot.TakingDecides` | crates/rustasea-debugbar/src/middleware.rs:55-67 | what is pushed before a list is taken is what every profile of the request holds, whatever happens later; what is pushed after stays in the context |
| `ProfilerSlot.TakenIsCredited` | crates/rustasea-debugbar/src/middleware.rs:49-68 | in every run, a list taken is what hooks were given while the slot held the request, entry by entry, but for what was still on its way |
| `ProfilerSlot.OwnWorkIff` | crates/rustasea-debugbar/src/middleware.rs:49-68 | in every run, a request's profile holds exactly its own work if and only if no foreign entry was pushed in time and every own hook found its request in the slot and was pushed in time |
| `ProfilerSlot.ProfileIsOwnWork` | crates/rustasea-debugbar/src/middleware.rs:49-68 | served one at a time, that is so for every recorded request |
| `ProfilerSlot.OverlapMisattributes` | crates/rustasea-debugbar/src/context.rs:10-17 | served together, a query of one request ends up in the recorded profile of the other |
| `ProfilerSlot.Profiler.Enter` | crates/rustasea-debugbar/src/middleware.rs:49-50 | a fresh context goes into the slot: the machine's start |
| `ProfilerSlot.Profiler.PushTo` | crates/rustasea-debugbar/src/context.rs:97-120 | the entry goes to the end of its list: the machine's push |
| `ProfilerSlot.Profiler.TakeFrom` | crates/rustasea-debugbar/src/context.rs:126-145 | the list is taken and left empty: the machine's advance |
| `ProfilerSlot.Profiler.Record` | crates/rustasea-debugbar/src/ring.rs:45-54 | the ring goes on holding the newest profiles of all ever recorded: the machine's advance |
| `ProfilerSlot.Profiler.ClearCurrentIf` | crates/rustasea-debugbar/src/context.rs:203-215 | only the slot that holds this very context is cleared: the machine's advance |
| `ProfilerSlot.Profiler.Finish` | crates/rustasea-debugbar/src/middleware.rs:55-68 | the middleware's last five steps in their order are five advances of the machine |
| `ToolRank.DedupKeepsFirsts` | crates/rustasea-ai/src/tool_rank.rs:80-84 | what is kept are exactly the first occurrences, in their order |
| `ToolRank.Score` | crates/rustasea-ai/src/tool_rank.rs:27-77 | scoring tools term by term gives each the sum, over the distinct query terms, of what the term adds for its name and description |
| `ToolRank.TermScoreIs` | crates/rustasea-ai/src/tool_rank.rs:43-72 | what a term adds is its BM25 weight with 1.2 and 0.75, from the number of documents, of those that hold it, of its occurrences, and from the length and the average length |
| `ToolRank.FrequencyIs` | crates/rustasea-ai/src/tool_rank.rs:48-51 | the document frequency is the number of documents that hold the term |
| `ToolRank.RarerTermScoresMore` | crates/rustasea-ai/src/tool_rank.rs:52-52 | of two terms as frequent in equally long documents, the one in fewer documents adds more, for any strictly increasing logarithm |
| `ToolRank.OftenerAddsMore` | crates/rustasea-ai/src/tool_rank.rs:57-69 | a further occurrence adds more |
| `ToolRank.LongerAddsLess` | crates/rustasea-ai/src/tool_rank.rs:62-69 | in a longer document the same term adds less |
| `ToolRank.WordIsToken` | crates/rustasea-ai/src/tool_rank.rs:15-20 | a word of letters and digits is one token, lowered |
| `ToolRank.PositiveIffShared` | crates/rustasea-ai/src/tool_rank.rs:27-77 | a document scores above zero if and only if it shares a token with the query, and never below zero |
| `ToolRank.ScoreIsOfTokenSet` | crates/rustasea-ai/src/tool_rank.rs:27-84 | repeating or reordering query tokens changes no score |
| `ToolRank.ToolShares` | crates/rustasea-ai/src/tool_rank.rs:15-36 | a tool's text shares a token with the query if and only if its name or its description does: joined with a space they are tokenized apart |
| `ToolRank.ToolSearch.Rank` | crates/rustasea-ai/src/loaders.rs:373-396 | the names and scores of exactly the tools whose name or description shares a token with the query, in descending score, in the order given on ties; none without a query |
| `ToolRank.ToolRankingIsUnique` | crates/rustasea-ai/src/loaders.rs:373-396 | only one answer meets that description |
| `ActivityQuery.ActivityQuery.Filter` | crates/rustasea-activitylog/src/model.rs:130-163 | one value bound, one clause under the number of that binding |
| `ActivityQuery.ActivityQuery.ForSubject` | crates/rustasea-activitylog/src/model.rs:130-138 | two filters, type and id, in that order |
| `ActivityQuery.ActivityQuery.Get` | crates/rustasea-activitylog/src/model.rs:171-183 | the statement rendered from the filters, with the values bound in their order |
| `ActivityQuery.StatementReads` | crates/rustasea-activitylog/src/model.rs:130-183 | the whole statement reads back as its table, the filters with placeholders numbered in binding order, and the limit, for every chain of builder calls, if and only if the table name holds no space |
| `ActivityQuery.StatementSelectsWanted` | crates/rustasea-activitylog/src/model.rs:124-183 | whatever filters are chained, none included, the statement under its bindings selects exactly the rows that meet them all; and no row when the table name is not one word |
| `TypeText.NormalizeType` | crates/rustasea-cli/src/model_inspect.rs:376-394 | the loop with its look-ahead drops exactly the spaces next to tight punctuation |
| `TypeText.OnlySpacesGo` | crates/rustasea-cli/src/model_inspect.rs:376-394 | nothing but spaces is removed, and order is kept |
| `TypeText.NormalFormDecides` | crates/rustasea-cli/src/model_inspect.rs:376-394 | two texts normalize alike if and only if they differ only in spaces next to tight punctuation |
| `TypeText.NormalizedIsFixed` | crates/rustasea-cli/src/model_inspect.rs:376-394 | normalizing twice is normalizing once |

## Left out

- LeaseLock.MutualExclusion: speaks of runs in which nobody else's operation changes what is live under the lock's key; what any other operation does to exclusion is `LeaseLock.InterferenceBreaksIff`.
- CacheStore.LazyIsIdeal: takes the clock of every operation as read under the lock; for `get`, which reads it earlier, `CacheStore.GetLinearizes` says what remains true.
- CacheStore.IncrementsAccumulate: adds as a release build does, wrapping around; a debug build panics instead.
- LeaseLock.Lock.Block: takes what other clients do to the store between attempts, the clock and the time waited as functions of the attempt; the 50 ms pause is a lower bound on the time between attempts.
- ChunkedImport.AcceptRow: validation rules and deserialization are one parameter that judges an object; their messages are opaque.
- ToolRank.ToolSearch.Rank: takes a space to be no alphanumeric character.
- ToolRank.Score: computes over the reals, with a logarithm of which only positivity above 1 is asked; rounding of 32-bit floats is not modelled, and Unicode classification and lower-casing are parameters.
- ActivityQuery.StatementSelectsWanted: reads words separated by spaces, and the condition as equality tests joined by AND, with null never equal; ordering and the limit are read back but not evaluated.
- CacheKeys.StoredKeysMeetIff: takes maps none of whose keys is ambiguous or can be taken to end a context (`CacheKeys.ScopesApartIff` says that keys meet otherwise).
- ProfilerSlot.OwnWorkIff: entries carry the request they were made for, which the original does not record; it is only looked at to state the property.
- AuthLog.NotifiedAtMostOnce: each SQL statement is one atomic step on one table, and ids are fresh; isolation levels of particular databases are not modelled.
- HMAC, random tokens and UUIDs: parameters, fresh where the protocol needs them to be.
- The overflow of an instant plus a lifetime, which panics in the original.
- `decrement` (an increment by the negated amount), `pull`, `remember` and typed access in the cache repository: they compose the operations modelled.
- The Redis, SQL and object-storage drivers, and failing I/O.
- The byte encoding of CSV and XLSX files, the XLSX export, and opening an import source.
- The import's progress callback and the `search` of the tool loader, which returns names in input order.
- Loading the signing key from configuration beyond `base64:` decoding (the blank check and trimming).
- Reading `cargo metadata` and printing its report: the workspace check starts from the parsed packages.
- Model inspection other than type text, HTTP middleware, registries, configuration loading and templates: no algorithm of their own.
