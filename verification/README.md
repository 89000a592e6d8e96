# Proofs about open-web-server

A Dafny model of the decision logic of open-web-server: the no-loss write pipeline of its ledger,
and the stateful cores of its gateway. Check everything with `dafny verify dfyconfig.toml`.

The model keeps the program's form. What the program updates in place is a class here, with methods
proved against specification functions; what it computes with expressions is a function; what
whole histories guarantee is stated as lemmas about runs of those specifications.

| files | what they model |
|---|---|
| `LedgerProtocol`, `LedgerTheorems`, `LedgerSerial`, `LedgerPayloads`, `LedgerPending`, `LedgerResend` | `Ledger::commit` as a state machine: each call is a process with a program counter, any number of calls interleave over WAL rows, region rows, audit file and upstream, every step may fail after or before taking effect, and a call may be dropped anywhere |
| `Ledger`, `LedgerAnswers` | the same pipeline as imperative code; every call, under any faults, is proved to be a run of the state machine, and its answer to follow from those faults |
| `AuditLog` | the append-only audit file, its scan and its reconciliation |
| `Lockout`, `OtpWindow`, `Totp`, `TwoFactor`, `TwoFactorTheorems`, `TwoFactorLogins`, `TwoFactorTables` | the two-factor store: lockout, request limit, one-time passwords, what whole histories guarantee, when an attempt succeeds, and the bounded tables against tables that never evict |
| `RateLimit` | the token bucket with idle eviction |
| `KeyGuardian`, `KeyGrants`, `KeyLifetimes` | API keys with learned intervals and quarantine; what an answer says of owner, roles and history; how long a revoked or expired key stays dead, and when the registry is empty |
| `TenantRouter`, `TenantReload` | per-host vectors against a finite map with longest-prefix lookup; loaded files with duplicates |
| `AccessLog` | the rotating log against a log that archives without limit |
| `Encoders` | `base32_encode` and `base64url_encode` against one decoder |
| `Acme`, `AcmeRuns`, `AcmeHttp01`, `AcmeProgress`, `AcmeDownload` | the ACME client against an arbitrary server: what its traffic tells, the client as functions, the client as objects proved against them, when it waits and succeeds, and what it takes for a certificate |
| `IpAllowlist` | address blocks |
| `Watchdog` | health records and the automatic certificate reissue |
| `Windows`, `Words`, `Arithmetic`, `Common` | sliding windows, machine words, powers of two, small datatypes |

## How the outside world enters

- Hash, HMAC and JSON are function-valued parameters. Where a proof needs more than that they are
  functions, it says so: `Faithful` (JSON decodes what it encodes and contains no newline, the
  digest is a function) for the audit file, `Injective` for the key hash.
- Failures are parameters: the fault of each WAL and region operation, the fate of each POST
  (`Delivery`, with replies that get lost), whether a file write succeeds (`written`), whether a
  restart can read and parse the file (`readable`; if not, the file stays as it is), how many
  file operations succeed (`disk`), what the ACME server answers (`World`), what the network
  answers at each stage of a probe (`Net`).
- Times are explicit. Timestamps of the gateway are integers in nanoseconds, the limiter uses real
  seconds. Runs assume that time does not go back only where a lemma says so.
- Floating-point numbers are reals; 32-bit and 64-bit integers wrap or saturate where the program
  makes them (`Shl`, `Counter`, `MAX_REQUESTS`, `U32_MAX`).

## Where code and documentation disagree

The model follows the code.

- The comments at `crates/open-web-server-ledger/src/lib.rs:235-236` and in `multi_region.rs` say that
  a failed commit can be retried by resending. The WAL check answers a pending row with an `Ok`
  receipt (`committed = false`), so a resend never forwards: `LedgerResend.ResendNeverForwards` is the
  case of too few acknowledgements, `DroppedCallIsStuck` that of a dropped call.
  `LedgerPending.CanCommitIff` says exactly when a pending row can still be committed;
  `PendingForever` says what happens otherwise.
- `constant_time_eq` compares lengths modulo 256 only; `TwoFactor.ConstantTimeEqExactly` says exactly
  what it accepts.
- `KeyDecision::RegistryEmpty` is documented as "no key was issued", but `IssuedButEmpty` has it
  answered after an issue. It means that every key issued was seen expired since
  (`KeyLifetimes.RegistryEmptyIff`), and right after a restart that the file holds no key or could
  not be read (`RegistryEmptyAfterRestartIff`).
- A TOTP step, a reset or a revocation whose file write failed is forgotten by the next process that
  reads the file; the error is only logged. `ReplayAfterRestartIff`, `ResetUndoneIff` and
  `RevocationHoldsIff` say exactly when that matters. A revocation that was written is final
  (`WrittenRevocationIsFinal`), and an expiry is final in any case (`ExpiryIsFinal`).
- The WAL is meant to hold what regions and upstream get. With a key reused for another request by
  an overlapping call it does not; `LedgerPayloads.PayloadsAgreeIff` is the exact condition.
- `load_from_toml` accepts duplicates that `add` refuses (`LoadIsCleanIff`), and the two halves of
  `resolve` then prefer different entries (`ResolveWinner`, `DuplicatesDisagree`).
- `tls_broken` is documented as a failed handshake, but a refused or timed-out TCP connection and a
  host name unfit for SNI set it too: `TlsBrokenMeansHandshakeFailedIff` says when it means what it
  says, and `OutageReissues` that a server which only refuses connections gets a new certificate.
- The certificate download does not look at the status of the answer: `ErrorPageIsReturned` has an
  error page returned as a certificate, `ErrorPageBecomesTheCertificate` does so from every
  successful run, and `CertificateIsTheLastAnswer` says exactly when the text came with a success.

## Model

| member | source | states |
|---|---|---|
| LedgerTheorems.NoLoss | crates/open-web-server-ledger/src/lib.rs:195-272 | From any reachable state, whatever any number of interleaved calls do and wherever they fail or die: no WAL row, region row, audit record or POST is lost or rewritten; everything in a region, the audit log or upstream is in the WAL; a committed row was answered by upstream and is held by at least `min_acks` distinct regions |
| LedgerTheorems.CommittedReceiptIsDurable | crates/open-web-server-ledger/src/lib.rs:195-272 | A receipt with `committed = true` stays true in every continuation: row committed, id answered by upstream, enough regions hold the key |
| LedgerTheorems.ReceiptAgreement | crates/open-web-server-ledger/src/lib.rs:246-271 | If upstream answers one fixed id per key, all committed receipts for a key are equal, from the forward path and from the WAL short-circuit, although the mark may overwrite the stored id |
| LedgerPayloads.HonestKeysAgree | crates/open-web-server-ledger/src/lib.rs:207-212 | If no key is used for two different requests, regions and upstream hold exactly the request the WAL holds |
| LedgerPayloads.ReusedKeyDiverges | crates/open-web-server-ledger/src/postgres_wal.rs:131-136 | In every configuration, overlapping calls for one key with two requests can make a region, or upstream, hold a payload the WAL does not have: the second append inserts nothing and still succeeds |
| LedgerPayloads.PayloadsAgreeIff | crates/open-web-server-ledger/src/lib.rs:207-231 | Exact condition: the stores agree in every state that calls for a set of requests can lead to, however they interleave and fail, if and only if no two of the requests share a key |
| LedgerPayloads.SerialPayloadsAgree | crates/open-web-server-ledger/src/lib.rs:197-231 | When calls for one key do not overlap, the stores always agree, whatever keys are reused |
| LedgerPayloads.StepStoresOwnRequest | crates/open-web-server-ledger/src/multi_region.rs:103-120 | A step stores nothing but the request of the call that takes it |
| LedgerProtocol.StepGrows | crates/open-web-server-ledger/src/lib.rs:195-272 | Every single step only extends durable state: rows keep their request and stay committed, region rows stay, logs extend |
| LedgerProtocol.RunGrows | crates/open-web-server-ledger/src/lib.rs:195-272 | The same over whole runs |
| LedgerProtocol.StepKeepsInv | crates/open-web-server-ledger/src/lib.rs:195-272 | Every step of the protocol, failing or not, keeps the invariant that ties rows, regions, POSTs, receipts and program counters together |
| LedgerProtocol.ReachableInv | crates/open-web-server-ledger/src/lib.rs:195-272 | The invariant holds in every reachable state |
| LedgerProtocol.StepWalFirst | crates/open-web-server-ledger/src/lib.rs:207-229 | Nothing reaches regions, audit log or upstream before the WAL |
| LedgerProtocol.AcksHold | crates/open-web-server-ledger/src/multi_region.rs:193-218 | Every acknowledgement counted by a call stands for a distinct region that holds the key |
| LedgerProtocol.MovedProcInv | crates/open-web-server-ledger/src/lib.rs:195-272 | Each program point has its obligation: forwarding only with enough holders, marking only with an id upstream answered |
| LedgerProtocol.NewReplicator | crates/open-web-server-ledger/src/multi_region.rs:169-180 | The threshold is all regions by default, and a given number is lowered to the number of regions if it is more |
| LedgerSerial.OneWriterPerKey | crates/open-web-server-ledger/src/lib.rs:197-212 | When calls for one key do not overlap (crashes and orphaned region writes allowed), at most one call per key ever passes the append, only that call forwards, and upstream gets at most max(1, max_retries) POSTs for the key over the whole run |
| LedgerSerial.SerialRunKeepsInv | crates/open-web-server-ledger/src/lib.rs:195-272 | The per-key accounting behind this holds after every serial run |
| LedgerSerial.ReconcileIsExact | crates/open-web-server-ledger/src/audit_log.rs:172-201 | Over such runs the audit file is clean, reconciliation against the committed keys reports no duplicate, and reports as missing exactly the audited keys whose row is still pending |
| LedgerSerial.AuditMissesNothing | crates/open-web-server-ledger/src/lib.rs:224-229 | With audit writes succeeding, every key POSTed upstream or committed has an audit record, for overlapping calls too |
| LedgerPending.PendingForever | crates/open-web-server-ledger/src/postgres_wal.rs:110-128 | Once no call that passed the check can still succeed, a pending row stays pending in every continuation, upstream never hears of the key again, and every later call is answered `committed = false` |
| LedgerPending.HopeCommits | crates/open-web-server-ledger/src/lib.rs:195-272 | A live call past the check that not too many regions refused can still commit the row; the run is constructed |
| LedgerPending.CanCommitIff | crates/open-web-server-ledger/src/lib.rs:197-212 | A pending row can still be committed if and only if some call for its key is past the check, alive and not refused by too many regions. The comments promise more, namely that a resend retries |
| LedgerResend.ResendNeverForwards | crates/open-web-server-ledger/src/lib.rs:195-243 | The case the comments promise a retry for: with any replicator and any faults that leave too few acknowledgements, the call fails, and sending the key again gets an uncommitted receipt; nothing was forwarded, and the row is stuck |
| LedgerResend.RefusalIsPossibleIff | crates/open-web-server-ledger/src/multi_region.rs:193-220 | Such faults exist if and only if the replicator asks for an acknowledgement at all |
| LedgerResend.DroppedCallIsStuck | crates/open-web-server-ledger/src/lib.rs:195-212 | In every configuration a call dropped after its append leaves a pending row that can never be committed |
| LedgerResend.RegionWriteAfterDrop | crates/open-web-server-ledger/src/multi_region.rs:193-205 | A call dropped while its region writes are under way may still write to any region afterwards |
| Ledger.PostgresWal.Append | crates/open-web-server-ledger/src/postgres_wal.rs:83-96 | A new row is pending; an existing row is left as it is, and the call succeeds |
| Ledger.PostgresWal.MarkCommitted | crates/open-web-server-ledger/src/postgres_wal.rs:98-108 | Sets the flag and overwrites the id of an existing row; an unknown key changes nothing |
| Ledger.PostgresWal.IsAlreadyProcessed | crates/open-web-server-ledger/src/postgres_wal.rs:110-128 | Any existing row is a receipt, with its own committed flag |
| Ledger.MultiRegionReplicator.Write | crates/open-web-server-ledger/src/multi_region.rs:103-120 | Inserts the request unless the key is there; only a fully successful write acknowledges |
| Ledger.MultiRegionReplicator.Replicate | crates/open-web-server-ledger/src/multi_region.rs:193-220 | All regions are written, failures included, and the result is success exactly when at least `min_acks` acknowledged |
| Ledger.SucceededAcks | crates/open-web-server-ledger/src/multi_region.rs:206-218 | The counted successes are the cardinality of the set of acknowledging regions |
| Ledger.ReplicateIsARun | crates/open-web-server-ledger/src/multi_region.rs:193-220 | Replication as a whole is a run of region-write steps of the state machine, ending with the verdict on the acknowledgements |
| Ledger.ForwardingIsARun | crates/open-web-server-ledger/src/lib.rs:316-331 | The retry loop is a run of POST steps of the state machine |
| Ledger.Ledger.ForwardWithRetry | crates/open-web-server-ledger/src/lib.rs:316-331 | At least one attempt; stops at the first id seen, or with an error once `max_retries` attempts are made; every attempt but the last got no id |
| Ledger.Ledger.Commit | crates/open-web-server-ledger/src/lib.rs:195-272 | One call, under any faults, is a valid run of the state machine by one process, whose final program counter is the returned result; and result, stores and POSTs are what the outcomes of its operations determine |
| LedgerAnswers.FirstCallAnswers | crates/open-web-server-ledger/src/lib.rs:195-272 | A first call for a key is answered with a committed receipt and the id first heard if and only if the check works, the append is reported, enough regions acknowledge, one of max(1, max_retries) POSTs is answered, and the mark is reported; otherwise it gets the error of the first of these that fails |
| LedgerAnswers.FirstCallStores | crates/open-web-server-ledger/src/lib.rs:207-271 | A call answered with a committed receipt leaves the row committed with that id, the request in every region whose write had an effect and did not know the key, one audit record if auditing is on and could write, and only its own request upstream |
| LedgerAnswers.LaterCallAnswers | crates/open-web-server-ledger/src/lib.rs:195-205 | A call for a known key changes nothing and is answered with the row as it stands |
| Ledger.Ledger.LookUp | crates/open-web-server-ledger/src/lib.rs:197-205 | An existing row ends the call with its receipt, a failed check with an error |
| Ledger.Ledger.AppendRow | crates/open-web-server-ledger/src/lib.rs:207-212 | Only a reported append lets the call go on |
| Ledger.Ledger.Finish | crates/open-web-server-ledger/src/lib.rs:222-272 | The part after the WAL append is a run of the state machine |
| Ledger.Ledger.Audit | crates/open-web-server-ledger/src/lib.rs:224-229 | The audit append never fails the call; the file keeps holding exactly the records of the state machine's audit log |
| Ledger.Ledger.ReplicateAll | crates/open-web-server-ledger/src/lib.rs:237-243 | Too few acknowledgements end the call with the replication error |
| Ledger.Ledger.Deliver | crates/open-web-server-ledger/src/lib.rs:246-271 | A call answers `committed = true` with the id it got upstream, only after the mark succeeded |
| Ledger.Ledger.MarkCommitted | crates/open-web-server-ledger/src/lib.rs:253-271 | The mark: the receipt is given only if it is reported done |
| AuditLog.ScanOfEncoded | crates/open-web-server-ledger/src/audit_log.rs:77-169 | Scanning the concatenated encoded lines of any records finds no bad line and returns exactly those records |
| AuditLog.ScanLines | crates/open-web-server-ledger/src/audit_log.rs:139-169 | On an arbitrary file: the error of the first bad non-empty line, or all records if there is none |
| AuditLog.ScannedLinesAreRecords | crates/open-web-server-ledger/src/audit_log.rs:145-169 | A scan that succeeds found, in every line that is not empty, the digest of the text behind the first space and a text that parses, and returns its record |
| AuditLog.TamperedLineFails | crates/open-web-server-ledger/src/audit_log.rs:150-162 | A line whose recorded digest is not that of its text fails the scan, and with its line number and both digests if all lines before are in order |
| AuditLog.LinesAreSplit | crates/open-web-server-ledger/src/audit_log.rs:144-148 | Lines end at LF or CRLF, and a rest without either is a line unless empty |
| AuditLog.FileAuditLog.Append | crates/open-web-server-ledger/src/audit_log.rs:125-136 | The file grows by exactly the encoded line, so a file that held only appended records still does |
| AuditLog.FileAuditLog.ScanAndVerify | crates/open-web-server-ledger/src/audit_log.rs:139-169 | The same for the file, a missing one being empty; a file of appended records scans to exactly those |
| AuditLog.FileAuditLog.Reconcile | crates/open-web-server-ledger/src/audit_log.rs:172-201 | Missing and duplicate keys are those of the scanned records; a scan error is passed on, and there is none on a file of appended records |
| AuditLog.EncodeAllSnoc | crates/open-web-server-ledger/src/audit_log.rs:125-136 | Appending one encoded line to an encoded file gives the encoded file of one record more |
| AuditLog.CountKeys | crates/open-web-server-ledger/src/audit_log.rs:178-181 | The counting loop returns the exact number of records of every key |
| AuditLog.ReportTells | crates/open-web-server-ledger/src/audit_log.rs:172-201 | A report names the keys on record that are not committed and those on record more than once, and counts the records |
| AuditLog.HexDigits | crates/open-web-server-ledger/src/audit_log.rs:67-74 | The loop writes two digits per byte, high nibble first |
| AuditLog.ToHexInjective | crates/open-web-server-ledger/src/audit_log.rs:67-74 | Different digests have different texts, so comparing texts compares digests |
| AuditLog.HexReadsBack | crates/open-web-server-ledger/src/audit_log.rs:67-74 | Each byte is written as two lower-case digits, the high one first, that read back as the byte |
| AuditLog.LinesOfEncoded | crates/open-web-server-ledger/src/audit_log.rs:77-81 | An encoded file splits into one line per record |
| Lockout.TableStaysBounded | crates/open-web-server-gateway/src/two_factor.rs:452-470 | The failure table never holds more than 10,000 owners |
| Lockout.RoomIsMade | crates/open-web-server-gateway/src/two_factor.rs:454-459 | Room is made only in a table of 10,000: what is neither locked nor younger than fifteen minutes goes, and everything if that is not enough |
| Lockout.FifthFailureLocks | crates/open-web-server-gateway/src/two_factor.rs:460-470 | Of five failures within fifteen minutes the fifth locks, no earlier one, for fifteen minutes |
| Lockout.OldFailuresAreForgotten | crates/open-web-server-gateway/src/two_factor.rs:461-463 | A failure fifteen minutes after the first of a window starts a new window |
| Lockout.EvictionIsInvisible | crates/open-web-server-gateway/src/two_factor.rs:452-470 | Unless the final clear fires, the table with eviction gives the same lock answers and counts as one that never evicts, over any run |
| TwoFactorTables.BoundedTablesAreInvisible | crates/open-web-server-gateway/src/two_factor.rs:326-574 | For the whole store: over any list of events with nondecreasing attempt times and no clear, every caller gets the answer it would get if neither table ever dropped anything |
| TwoFactorTables.StepRelated | crates/open-web-server-gateway/src/two_factor.rs:326-574 | One event, answered alike, keeps the two stores the same but for the tables, and the bounded tables a part of the others |
| Lockout.CountExplains | crates/open-web-server-gateway/src/two_factor.rs:452-470 | What an entry says of the past: its failures, window and lock explain a history in which no nine failures fit into fifteen minutes |
| Lockout.EightIsReached | crates/open-web-server-gateway/src/two_factor.rs:452-470 | The bound of eight is exact: a schedule of nine failures, none of them locked out, puts eight into one interval |
| TwoFactorTheorems.AtMostEightFailures | crates/open-web-server-gateway/src/two_factor.rs:442-491 | With serialised calls, nondecreasing time and no success, reset, restart or clear, any half-open fifteen minutes hold at most 8 `Invalid` answers for an owner, logins and overrides together, whatever other owners do |
| TwoFactorTheorems.LockedLeavesTheStoreUnchanged | crates/open-web-server-gateway/src/two_factor.rs:562-565 | A `Locked` answer changes nothing in the store |
| TwoFactorTheorems.LoginCases | crates/open-web-server-gateway/src/two_factor.rs:562-574 | The three outcomes of a login: when each occurs and everything it changes and leaves alone |
| TwoFactorTheorems.OverrideCases | crates/open-web-server-gateway/src/two_factor.rs:479-491 | The same for an override attempt |
| TwoFactorLogins.LoginSucceedsIff | crates/open-web-server-gateway/src/two_factor.rs:535-574 | Over any history after a code was mailed and until it is replaced or spent: a login succeeds if and only if the owner is not locked out, less than five minutes have passed, the text is that code (or that code and a multiple of 256 NUL bytes), and the TOTP code stands for a step newer than the last one of a confirmed secret |
| TwoFactorLogins.NoCodeNoLogin | crates/open-web-server-gateway/src/two_factor.rs:544-574 | Without a mailed code no login succeeds |
| TwoFactorLogins.OverrideSucceedsIff | crates/open-web-server-gateway/src/two_factor.rs:479-497 | An override attempt succeeds if and only if the owner is not locked out and the code is a fresh one of a confirmed secret, and then lasts fifteen minutes |
| TwoFactorLogins.ConfirmSucceedsIff | crates/open-web-server-gateway/src/two_factor.rs:407-420 | A confirmation succeeds if and only if the code is a fresh one, and confirms the secret |
| TwoFactorTheorems.EnrollAndResetAnswers | crates/open-web-server-gateway/src/two_factor.rs:363-402 | An enrollment is refused if and only if the owner is confirmed; a reset removes the enrollment and reports whether there was one |
| TwoFactorTheorems.EnrolledIsUnconfirmed | crates/open-web-server-gateway/src/two_factor.rs:363-389 | An enrollment starts unconfirmed and without a used step |
| TwoFactorTheorems.StepsNeverRepeat | crates/open-web-server-gateway/src/two_factor.rs:429-440 | Between resets the steps accepted by confirmation, override and login together strictly increase, across restarts that find the enrollment as it was (RFC 6238 section 5.2) |
| TwoFactorTheorems.LostWriteAllowsReplay | crates/open-web-server-gateway/src/two_factor.rs:346-353 | The condition on restarts is needed: after a lost write the next process accepts the same code for the same step again |
| TwoFactorTheorems.ReplayAfterRestartIff | crates/open-web-server-gateway/src/two_factor.rs:207-353 | Exact condition: from a file that agreed with memory, the next process accepts the code of an accepted step again if and only if it reads a file and the write of that step was lost |
| TwoFactorTheorems.WrittenStepsNeverRepeat | crates/open-web-server-gateway/src/two_factor.rs:429-440 | From a file that agrees with memory, as long as writes and reads of the file succeed and the owner is not reset, the accepted steps strictly increase over any run, restarts included |
| TwoFactorTheorems.WrittenIsUndisturbed | crates/open-web-server-gateway/src/two_factor.rs:338-353 | Successful writes and reads are all that the condition on restarts takes |
| TwoFactorTheorems.ResetUndoneIff | crates/open-web-server-gateway/src/two_factor.rs:391-402 | A reset is undone by the next restart if and only if that reads a file and the write of the reset was lost |
| TwoFactorTheorems.EnrollmentAfter | crates/open-web-server-gateway/src/two_factor.rs:363-440 | Any event on the store either leaves a confirmed enrollment as it is or advances its last step, keeping the secret |
| TwoFactorTheorems.ConfirmedSecretStays | crates/open-web-server-gateway/src/two_factor.rs:363-386 | A confirmed secret never changes until the owner is reset |
| TwoFactorTheorems.AcceptancesBounded | crates/open-web-server-gateway/src/two_factor.rs:84-98 | At most b/30 - a/30 + 3 codes are accepted at times in [a, b] seconds |
| TwoFactorTheorems.OverrideLastsFifteenMinutes | crates/open-web-server-gateway/src/two_factor.rs:479-497 | Over any run, an override is valid exactly for fifteen minutes after the last successful attempt since the last reset or restart |
| TwoFactor.TwoFactorStore.EmailMatches | crates/open-web-server-gateway/src/two_factor.rs:544-547 | A code matches only while it is live and the comparison accepts it |
| TwoFactorTheorems.CodesAreOneShot | crates/open-web-server-gateway/src/two_factor.rs:562-574 | Every e-mail code is compared with at most one guess, right or wrong |
| TwoFactorTheorems.SuccessNeedsBothFactors | crates/open-web-server-gateway/src/two_factor.rs:562-569 | A successful login compared a live e-mail code and consumed a fresh step of a confirmed secret, and leaves neither code nor failures behind |
| TwoFactorTheorems.RequestTableRuns | crates/open-web-server-gateway/src/two_factor.rs:508-524 | Only code requests touch the request table, so its theorems hold in every run of the store |
| TwoFactor.CompareConstantTime | crates/open-web-server-gateway/src/two_factor.rs:579-588 | The accumulating loop answers true exactly when the lengths agree modulo 256 and all bytes agree, beyond an end read as zero |
| TwoFactor.ConstantTimeEqIsEquality | crates/open-web-server-gateway/src/two_factor.rs:579-588 | For texts shorter than 256 bytes the comparison is equality |
| TwoFactor.ConstantTimeEqExactly | crates/open-web-server-gateway/src/two_factor.rs:579-588 | For all lengths: a longer text is accepted exactly when it is the shorter one followed by a multiple of 256 NUL bytes |
| TwoFactor.TwoFactorStore.Enroll | crates/open-web-server-gateway/src/two_factor.rs:363-389 | Refused for a confirmed owner; otherwise a fresh unconfirmed enrollment |
| TwoFactor.TwoFactorStore.Reset | crates/open-web-server-gateway/src/two_factor.rs:391-402 | Removes enrollment, override, challenge and failures; the file is rewritten only if there was an enrollment |
| TwoFactor.TwoFactorStore.Confirm | crates/open-web-server-gateway/src/two_factor.rs:407-420 | Accepts a fresh step only and records it |
| TwoFactor.TwoFactorStore.ConsumeTotp | crates/open-web-server-gateway/src/two_factor.rs:429-440 | Accepts a fresh step of a confirmed enrollment only and records it |
| TwoFactor.TwoFactorStore.RecordOneFailure | crates/open-web-server-gateway/src/two_factor.rs:452-470 | Makes room, starts a new window if the old one is over and no lock holds, counts, and locks for fifteen minutes at the fifth failure |
| TwoFactor.TwoFactorStore.VerifyForOverride | crates/open-web-server-gateway/src/two_factor.rs:479-491 | A locked owner changes nothing; a fresh step of a confirmed secret is recorded, clears the failures and opens a fifteen-minute override; anything else counts one failure |
| TwoFactor.TwoFactorStore.VerifyLogin | crates/open-web-server-gateway/src/two_factor.rs:562-574 | A locked owner changes nothing; with both factors right the code is spent, the step recorded and the failures cleared; otherwise the code is spent all the same and one failure is counted |
| TwoFactor.TwoFactorStore.AllowOtpRequest | crates/open-web-server-gateway/src/two_factor.rs:508-524 | Forgets what is not recent, admits below three and then remembers this request; a refused request leaves its key in the table |
| TwoFactor.TwoFactorStore.IssueEmailOtp | crates/open-web-server-gateway/src/two_factor.rs:535-542 | Replaces the owner's code; it expires five minutes later |
| OtpWindow.TableStaysBounded | crates/open-web-server-gateway/src/two_factor.rs:508-524 | The request table never holds more than 10,000 keys |
| OtpWindow.RoomIsMade | crates/open-web-server-gateway/src/two_factor.rs:511-516 | Room is made only in a table of 10,000: keys without a recent request go, and all of them if that is not enough |
| OtpWindow.RecentIsTheLast300Seconds | crates/open-web-server-gateway/src/two_factor.rs:518-518 | Recent is what happened in the last 300 seconds |
| OtpWindow.AllowIsExact | crates/open-web-server-gateway/src/two_factor.rs:508-524 | As long as the table remembers all that is recent and the clear does not fire, a request is admitted exactly when fewer than three of all earlier admissions of its key are recent, and the table then still remembers |
| OtpWindow.EvictionIsInvisible | crates/open-web-server-gateway/src/two_factor.rs:508-524 | Over any run without a clear, from tables that agree on what is recent, the bounded table answers every request as a table that forgets nothing |
| OtpWindow.AtMostThreePerWindow | crates/open-web-server-gateway/src/two_factor.rs:101-102 | Each owner and address is admitted at most three times in any half-open 300-second interval |
| OtpWindow.KeyInjective | crates/open-web-server-gateway/src/two_factor.rs:517-517 | The combined key separates owners and addresses that contain no newline |
| Totp.HotpIsTruncation | crates/open-web-server-gateway/src/two_factor.rs:62-72 | Dynamic truncation (RFC 4226 section 5.3): the last six decimal digits of the low 31 bits of the big-endian word at the offset that the last half-byte gives |
| Totp.MatchingStepIsClose | crates/open-web-server-gateway/src/two_factor.rs:84-94 | A code is matched exactly when it is the code of one of the three steps around the clock, and the step reported is one whose code it is |
| TwoFactorLogins.MatchedIffEarliest | crates/open-web-server-gateway/src/two_factor.rs:84-94 | The step reported is the earliest of the current 30-second step and its two neighbours that has this code |
| RateLimit.FromEnv | crates/open-web-server-gateway/src/rate_limit.rs:50-60 | A missing or non-positive rate disables the limiter; otherwise the burst is the given value, or the rate, raised to one if it is less |
| RateLimit.RateLimiter.TryAcquire | crates/open-web-server-gateway/src/rate_limit.rs:76-91 | A new address starts with a full bucket; elapsed time refills it up to the burst; a whole token admits and is taken, and the time is noted either way |
| RateLimit.AdmissionBound | crates/open-web-server-gateway/src/rate_limit.rs:76-91 | Admissions of one address in any closed interval number at most burst + rps * length, with evictions in between that wait long enough |
| RateLimit.EvictionNeverChangesADecision | crates/open-web-server-gateway/src/rate_limit.rs:97-101 | Evicting buckets idle for at least burst / rps never changes any later decision, over whole runs |
| RateLimit.EvictionInvisibleIff | crates/open-web-server-gateway/src/rate_limit.rs:97-101 | Exact condition: an eviction is invisible to all later requests, in every table and every continuation, if and only if the required idle time is at least burst / rps |
| RateLimit.UnsweptCannotServeAll | crates/open-web-server-gateway/src/rate_limit.rs:76-101 | The witness: an emptied bucket that is left alone refuses one of floor(burst) + 1 requests that the evicted, and so refilled, one serves |
| RateLimit.EarlySweepIsVisible | crates/open-web-server-gateway/src/rate_limit.rs:97-101 | Any shorter idle time changes a decision |
| RateLimit.SlowClientNeverRejected | crates/open-web-server-gateway/src/rate_limit.rs:76-91 | A client that spaces its requests at least 1 / rps apart is never rejected |
| RateLimit.AvailableAfter | crates/open-web-server-gateway/src/rate_limit.rs:76-91 | An operation costs exactly one available token if it admits, and none otherwise |
| KeyGuardian.Guardian.Verify | crates/open-web-server-gateway/src/keyring.rs:276-337 | Empty registry, unknown, expired (removed and saved), revoked, quarantined, anomalous (quarantined from now on) and accepted (usage learned) are told apart in this order, with all that each changes |
| KeyGuardian.Guardian.RevokeEach | crates/open-web-server-gateway/src/keyring.rs:257-262 | The loop in any order revokes exactly the owner's live keys and counts them |
| KeyGuardian.Guardian.RevokeOwner | crates/open-web-server-gateway/src/keyring.rs:254-267 | The file is rewritten only if something was revoked |
| KeyGuardian.Guardian.Issue | crates/open-web-server-gateway/src/keyring.rs:237-250 | Adds the record under the hash of the key |
| KeyGuardian.RevokeAnswers | crates/open-web-server-gateway/src/keyring.rs:254-267 | Exactly the live keys of the owner are marked revoked, nothing else about them changes, and their number is reported |
| KeyGrants.AnswersNameTheGrant | crates/open-web-server-gateway/src/keyring.rs:276-337 | Over any run, an answer that accepts or suspends a key names the owner of its last issue, or of the record that the last restart read, and an acceptance exactly the roles |
| KeyGrants.AcceptedAsIssued | crates/open-web-server-gateway/src/keyring.rs:237-337 | Over any run from an empty registry, owner and roles of an acceptance are those of an issue of that key |
| KeyGrants.IssuedKeyIsAccepted | crates/open-web-server-gateway/src/keyring.rs:237-337 | A key just issued is accepted with its rights until it expires, and by the next process too if the write succeeded |
| KeyGrants.DecidedByHistory | crates/open-web-server-gateway/src/keyring.rs:276-337 | Over any run after a restart, all four answers are decided by the record of the key, a suspension that still lasts, and the times at which the key was accepted so far |
| KeyGrants.UsageIsTheHistory | crates/open-web-server-gateway/src/keyring.rs:319-334 | The learned interval is the fold 0.7 old + 0.3 new over the gaps between acceptances, starting with the first gap; request count and last time are those of the acceptances |
| KeyGrants.SuspensionAfter | crates/open-web-server-gateway/src/keyring.rs:313-330 | An acceptance ends a suspension, an anomaly starts one, and nothing else but a restart changes it |
| KeyLifetimes.WrittenRevocationIsFinal | crates/open-web-server-gateway/src/keyring.rs:254-311 | Once a revocation was written, no request with the key is ever accepted again in any run that does not issue it again, whatever writes are lost afterwards and however often the process restarts |
| KeyLifetimes.RevocationHoldsIff | crates/open-web-server-gateway/src/keyring.rs:208-311 | Exact condition for any revocation: over a run the key stays dead if and only if the revocation was written, or the file held no live record of the key, or the file is rewritten before the first restart that reads it |
| KeyLifetimes.DeadKeysStayDeadIff | crates/open-web-server-gateway/src/keyring.rs:208-311 | The same from any state in which the key is revoked or gone, seen expired for one: it stays dead over a run if and only if the file holds no live record of it or is rewritten before the first restart that reads it |
| KeyLifetimes.SavesIff | crates/open-web-server-gateway/src/keyring.rs:226-311 | The file changes exactly when something was issued, found expired or revoked and the write succeeded; then it is what memory holds |
| KeyLifetimes.DeadKeysAreNeverAccepted | crates/open-web-server-gateway/src/keyring.rs:276-311 | While it is dead no request with it is accepted |
| KeyLifetimes.RestartResurrectsIff | crates/open-web-server-gateway/src/keyring.rs:154-219 | After a restart some request with the key is accepted if and only if the file could be read and holds a live record of it |
| KeyLifetimes.ExpiryIsFinal | crates/open-web-server-gateway/src/keyring.rs:276-311 | An expired key is never accepted again, whether or not its expiry was noticed, whatever writes were lost, however often the process restarts, and even if the clock goes back in between |
| KeyLifetimes.IssuedKeysExpire | crates/open-web-server-gateway/src/keyring.rs:237-250 | For a key that is new to registry and file, issuing it with an expiry is all that this needs |
| KeyLifetimes.ExpiredKeysStayDead | crates/open-web-server-gateway/src/keyring.rs:276-311 | With a clock that does not go back, a key expired now is never accepted again, lost writes and restarts included |
| KeyLifetimes.RevokedIsDead | crates/open-web-server-gateway/src/keyring.rs:254-267 | Revoking an owner kills every key of that owner |
| KeyLifetimes.SeenExpiredIsDead | crates/open-web-server-gateway/src/keyring.rs:288-297 | Noticing the expiry kills the key |
| KeyLifetimes.LostWriteResurrects | crates/open-web-server-gateway/src/keyring.rs:154-233 | A restart right after a revocation brings a key with a live record in the file back if and only if the write was lost |
| KeyLifetimes.RegistryEmptyIff | crates/open-web-server-gateway/src/keyring.rs:281-283 | Over any run without a restart from an empty registry, `RegistryEmpty` is answered if and only if every key ever issued was seen expired since it was last issued |
| KeyLifetimes.RegisteredIsHeld | crates/open-web-server-gateway/src/keyring.rs:237-311 | Between restarts the registered keys are, from any start, exactly those that the list of events says: issued, and not seen expired since |
| KeyLifetimes.IssuedButEmpty | crates/open-web-server-gateway/src/keyring.rs:281-283 | The witness: one key issued and then seen expired |
| KeyLifetimes.RegistryEmptyAfterRestartIff | crates/open-web-server-gateway/src/keyring.rs:154-219 | The first answer after a restart is `RegistryEmpty` if and only if there is no file, it could not be read or parsed, or there is nothing in it |
| KeyGuardian.AnomalyQuarantines | crates/open-web-server-gateway/src/keyring.rs:313-330 | A `Suspended` answer leaves the suspension that still lasts as it is, and otherwise suspends the key for the cooldown from now on |
| KeyGuardian.NoAcceptanceInQuarantine | crates/open-web-server-gateway/src/keyring.rs:312-317 | A quarantined key is not accepted before the end of its suspension, whatever else happens short of a restart |
| KeyGuardian.AcceptedIff | crates/open-web-server-gateway/src/keyring.rs:319-334 | Outside quarantine a live key is accepted if and only if it was never seen, is warming up, the gap is zero milliseconds, or the gap exceeds learned / factor, the gap itself counting as learned if nothing was learned yet |
| KeyGuardian.LearnedBetweenGaps | crates/open-web-server-gateway/src/keyring.rs:331-331 | The learned interval always lies between the least and the greatest gap of accepted requests, over any run |
| TenantRouter.RunRefines | crates/open-web-server-gateway/src/tenant_router.rs:228-283 | Over any run of add, upsert and remove the per-host vectors stand for the map (host, prefix) -> tenant that the same operations build: no duplicate pair, no host with an empty vector |
| TenantRouter.AddRefines | crates/open-web-server-gateway/src/tenant_router.rs:228-240 | `add` is map insertion, refused exactly when the pair is taken |
| TenantRouter.UpsertRefines | crates/open-web-server-gateway/src/tenant_router.rs:244-250 | `upsert` is map update |
| TenantRouter.RemoveRefines | crates/open-web-server-gateway/src/tenant_router.rs:261-283 | `remove_prefixed` is map removal, an error exactly when the pair is missing |
| TenantRouter.ResolveRefines | crates/open-web-server-gateway/src/tenant_router.rs:291-335 | `resolve` is determined by the map: the strictly longest matching prefix (`/` exactly), else the tenant without a prefix |
| TenantRouter.ResolveExactly | crates/open-web-server-gateway/src/tenant_router.rs:46-335 | The longest registered non-empty prefix that the path starts with, where `/` fits the path `/` alone, else the tenant without a prefix; for any other path a tenant under `/` is never the answer |
| TenantRouter.RoutedIsUnique | crates/open-web-server-gateway/src/tenant_router.rs:304-323 | The map allows one answer only, so the order inside the vectors never matters |
| TenantRouter.SameLengthSamePrefix | crates/open-web-server-gateway/src/tenant_router.rs:46-52 | Two matching prefixes of one length are the same prefix |
| TenantRouter.LongestIsRouted | crates/open-web-server-gateway/src/tenant_router.rs:314-322 | The maximum over the vector is the longest prefix route of the map, and there is none if there is no candidate |
| TenantRouter.HostPart | crates/open-web-server-gateway/src/tenant_router.rs:309-309 | The longest start of the header without a colon |
| TenantRouter.LoadRefines | crates/open-web-server-gateway/src/tenant_router.rs:194-210 | Loading a list without duplicates is inserting it into the map |
| TenantRouter.LoadIsCleanIff | crates/open-web-server-gateway/src/tenant_router.rs:194-210 | Loading does not check for duplicates: it leaves none if and only if the list has none and clashes with nothing registered before |
| TenantReload.ResolveWinner | crates/open-web-server-gateway/src/tenant_router.rs:291-335 | Among any entries, duplicates included: of the longest matching prefixes the last entry answers, and if none matches the first entry without a prefix |
| TenantReload.DuplicatesDisagree | crates/open-web-server-gateway/src/tenant_router.rs:304-335 | With a loaded duplicate the two halves of `resolve` disagree on who wins, the first entry or the last |
| TenantRouter.RoundTrip | crates/open-web-server-gateway/src/tenant_router.rs:161-210 | Saving in any order of hosts and loading into a fresh registry gives back the very same map |
| TenantReload.ReloadGivesBackTheVectors | crates/open-web-server-gateway/src/tenant_router.rs:161-210 | Saving in any order of hosts and loading into a fresh registry gives back the very same vectors, duplicates and their order included |
| TenantReload.ReloadResolvesTheSame | crates/open-web-server-gateway/src/tenant_router.rs:161-335 | Any run from an empty registry of additions, updates, removals and loaded files, saved and reloaded, resolves every host and path as before |
| TenantRouter.TenantRegistry.Persist | crates/open-web-server-gateway/src/tenant_router.rs:161-188 | The loop over all hosts writes a listing of the vectors, each host once; a failed write leaves the file |
| TenantRouter.TenantRegistry.LoadFromToml | crates/open-web-server-gateway/src/tenant_router.rs:194-210 | The loop appends every entry to its host's vector |
| TenantRouter.TenantRegistry.Add | crates/open-web-server-gateway/src/tenant_router.rs:228-240 | Refused with nothing changed and nothing saved if the pair is there; otherwise appended to the host's vector and saved |
| TenantRouter.TenantRegistry.Upsert | crates/open-web-server-gateway/src/tenant_router.rs:244-250 | Every entry with the pair is replaced by the new one at the end of the vector, and saved |
| TenantRouter.TenantRegistry.RemovePrefixed | crates/open-web-server-gateway/src/tenant_router.rs:261-283 | An error with nothing changed if nothing matches; otherwise the entries go, an emptied host goes too, and the rest is saved |
| TenantRouter.StripPathPrefixUndone | crates/open-web-server-gateway/src/tenant_router.rs:358-367 | The forwarded path is always rooted, and the prefix in front of it gives the original path if and only if the path continues with a slash after the prefix |
| AccessLog.DiskIsASuffixOfHistory | crates/open-web-server-gateway/src/access_log.rs:125-187 | Read from the oldest generation to the current file, the log is a suffix of all lines ever written, and all of them up to `max_backups` rotations |
| AccessLog.LossIsWholeFiles | crates/open-web-server-gateway/src/access_log.rs:168-172 | What is missing is exactly the files rotated away before the last `max_backups` ones |
| AccessLog.GenerationsAreContiguous | crates/open-web-server-gateway/src/access_log.rs:151-187 | The generations on disk are exactly 1..k with k the number of rotations or `max_backups`, whichever is less |
| AccessLog.FilesWithinLimit | crates/open-web-server-gateway/src/access_log.rs:136-141 | Every file is within `max_bytes` or holds a single line, and none is empty |
| AccessLog.FilesAreFull | crates/open-web-server-gateway/src/access_log.rs:136-141 | Lines that fit together stay together: every archive with the first line of the next younger file exceeds `max_bytes` |
| AccessLog.RunRefines | crates/open-web-server-gateway/src/access_log.rs:125-187 | The files on disk represent the log that archives without limit, after every run |
| AccessLog.RotateRefines | crates/open-web-server-gateway/src/access_log.rs:151-187 | One rotation, also with `max_backups` = 0, is archiving the current file |
| AccessLog.AccessLogger.ShiftGenerations | crates/open-web-server-gateway/src/access_log.rs:168-181 | The descending rename loop shifts every generation by one; stopped anywhere, it has shifted the upper part |
| AccessLog.AccessLogger.Rotate | crates/open-web-server-gateway/src/access_log.rs:151-187 | Complete if enough file operations succeed; if any fails, every file but the oldest generation is still there, at most one generation older |
| AccessLog.AccessLogger.WriteEntry | crates/open-web-server-gateway/src/access_log.rs:125-147 | Rotates exactly when the line does not fit, then appends; the same guarantee on failure |
| Encoders.Base32Encode | crates/open-web-server-gateway/src/two_factor.rs:44-60 | RFC 4648 section 6 for every byte sequence, despite the 32-bit accumulator that drops high bits: ceil(8n/5) symbols of the alphabet that write the number of the data followed by zero padding bits, so decoding gives back the data |
| Encoders.Base64UrlEncode | crates/open-web-server-gateway/src/acme.rs:180-197 | RFC 4648 section 5 for every byte sequence: ceil(4n/3) symbols, the same characterisation, decoding gives back the data |
| Encoders.EncodedDecodes | crates/open-web-server-gateway/src/two_factor.rs:44-60 | A standard decoder, the text cut as a bit string into octets, inverts every correct encoding |
| Encoders.SymbolsOfTheAlphabet | crates/open-web-server-gateway/src/two_factor.rs:35-35 | The symbols with a value are exactly the table's, each with its place in it; the same for the other table |
| Encoders.PushOctet | crates/open-web-server-gateway/src/two_factor.rs:49-50 | Shifting a byte into the accumulator keeps all pending bits, although the top bits are lost |
| Encoders.NextDigit | crates/open-web-server-gateway/src/two_factor.rs:51-54 | The digit taken out is the next five pending bits |
| Encoders.LastDigit | crates/open-web-server-gateway/src/two_factor.rs:56-58 | The last digit is the pending bits followed by zeros |
| Encoders.AppendChunk | crates/open-web-server-gateway/src/acme.rs:183-194 | The symbols of a chunk of one, two or three octets |
| AcmeHttp01.ObtainCertificateHttp01 | crates/open-web-server-gateway/src/acme.rs:604-657 | Against an arbitrary server: every POST carries a nonce handed out since the POST before and was permitted; at most 22n + 24 POSTs for n authorizations; on success every published token is removed and the store is otherwise as before, on failure at most one token is left; result and traffic are those of the specification |
| AcmeRuns.ObtainSafe | crates/open-web-server-gateway/src/acme.rs:604-657 | The same for the specification: nonces sourced, POSTs permitted and bounded, tokens cleaned up |
| Acme.NoNonceIsSentTwice | crates/open-web-server-gateway/src/acme.rs:400-404 | If the server never hands out a nonce twice, none is sent twice (RFC 8555 section 6.5) |
| Acme.EveryPostWasPermitted | crates/open-web-server-gateway/src/acme.rs:604-657 | At every POST of an orderly run: a challenge response only while its key authorization is published and the server offered that challenge, finalize only after each authorization of that order was seen valid, download only from the certificate URL of an order of this run seen valid, fetching only orders of the run and their authorizations, accounts and orders only where the directory says, the bare key only for newAccount |
| AcmeDownload.DownloadStatusIsIgnored | crates/open-web-server-gateway/src/acme.rs:568-597 | Against any two servers that differ only in their answers to the download, but for its text, a run that returns a certificate against the one returns the same against the other |
| AcmeDownload.ErrorPageBecomesTheCertificate | crates/open-web-server-gateway/src/acme.rs:568-597 | Every run that returns a certificate would return the same text had the server refused the download |
| AcmeDownload.ErrorPageIsReturned | crates/open-web-server-gateway/src/acme.rs:604-657 | There is a server that has the client return the body of an error answer as a certificate |
| AcmeDownload.CertificateIsTheLastAnswer | crates/open-web-server-gateway/src/acme.rs:568-657 | The certificate returned is the text of the last answer, and comes from a 2xx answer if and only if that answer was one |
| AcmeDownload.DownloadOkIff | crates/open-web-server-gateway/src/acme.rs:568-597 | A download succeeds if and only if the POST went out and an answer with a readable body came; it goes out if and only if there are a nonce, an account and a signature |
| AcmeDownload.PostJwsAnswers | crates/open-web-server-gateway/src/acme.rs:400-453 | When each outcome of a POST occurs: no nonce, no signature, no answer, a body that is not JSON, an error status, or the answer |
| AcmeHttp01.AcmeClient.PostJws | crates/open-web-server-gateway/src/acme.rs:400-453 | One POST as specified: nonce, signature, answer, and the body read as JSON before the status counts |
| AcmeRuns.PostJwsTraffic | crates/open-web-server-gateway/src/acme.rs:400-453 | At most one POST and no change to what is published; the nonce kept afterwards is the one of the answer, whatever its status, and none if nothing was sent |
| AcmeRuns.PostJwsSafe | crates/open-web-server-gateway/src/acme.rs:400-453 | A permitted POST keeps the order of the protocol, carries a fresh nonce, and succeeds only with a 2xx answer, which is then in the trace |
| AcmeHttp01.AcmeClient.TakeNonce | crates/open-web-server-gateway/src/acme.rs:386-404 | The stored nonce, or one from newNonce; it is gone afterwards |
| AcmeRuns.CreateAccountSafe | crates/open-web-server-gateway/src/acme.rs:455-467 | On success the account URL is the one the server answered |
| AcmeRuns.CreateOrderSafe | crates/open-web-server-gateway/src/acme.rs:474-487 | On success the order and its URL are those the server answered |
| AcmeHttp01.AcmeClient.PollAuthorizationUntilValid | crates/open-web-server-gateway/src/acme.rs:530-540 | The loop is the specified poll: valid ends it with success, pending waits, any other status or a failed POST ends it with an error, and so do `max_attempts` answers |
| AcmeRuns.PollAuthorizationSafe | crates/open-web-server-gateway/src/acme.rs:530-540 | Success means that the server said valid |
| AcmeRuns.PollAuthorizationTraffic | crates/open-web-server-gateway/src/acme.rs:530-540 | A poll takes at most `max_attempts` POSTs |
| AcmeHttp01.AcmeClient.PollOrderUntilValid | crates/open-web-server-gateway/src/acme.rs:509-519 | The same for the order, where processing and pending both wait |
| AcmeRuns.PollOrderSafe | crates/open-web-server-gateway/src/acme.rs:509-519 | Success means that the server said valid, with that certificate URL |
| AcmeProgress.PollOrderIff | crates/open-web-server-gateway/src/acme.rs:509-519 | An order poll returns an order if and only if the first look that does not show it processing or pending shows it valid, fails for its status if and only if that look shows any other, and times out if and only if every look shows it in progress |
| AcmeProgress.PollOrderDecided | crates/open-web-server-gateway/src/acme.rs:509-519 | After any number of looks in progress, the next one decides: valid is returned, an error is passed on, any other status fails |
| AcmeProgress.PollAuthorizationDecided | crates/open-web-server-gateway/src/acme.rs:530-540 | The same for an authorization, where only pending waits |
| AcmeProgress.OrderSeenWasAnswered | crates/open-web-server-gateway/src/acme.rs:498-501 | A look shows the order in a 2xx answer to a POST-as-GET of its URL |
| AcmeProgress.SlowServerCertifies | crates/open-web-server-gateway/src/acme.rs:604-657 | Whatever the number of authorizations and however long each stays pending and the order pending or processing, short of twenty answers in a row: a server that otherwise answers well has the client return the text of its last answer and the key |
| AcmeProgress.SlowServerIsKind | crates/open-web-server-gateway/src/acme.rs:604-657 | There are such servers, among them one that shows most orders unfinished |
| AcmeProgress.NoChallengeOffered | crates/open-web-server-gateway/src/acme.rs:624-634 | An authorization is given up for its challenges if and only if it has no http-01 challenge or the first one has no token |
| AcmeProgress.NoCertificateNamed | crates/open-web-server-gateway/src/acme.rs:650-656 | A valid order without a certificate URL is given up |
| AcmeHttp01.AcmeClient.FinalizeOrder | crates/open-web-server-gateway/src/acme.rs:542-566 | The specified POST with a request signed by the new key |
| AcmeRuns.FinalizeAndPollSafe | crates/open-web-server-gateway/src/acme.rs:643-653 | With every authorization of an order of this run seen valid, finalizing is permitted, and the certificate URL obtained is that of the order |
| AcmeHttp01.AcmeClient.DownloadCertificate | crates/open-web-server-gateway/src/acme.rs:568-597 | The specified download, whose status is not looked at |
| AcmeRuns.FindHttp01 | crates/open-web-server-gateway/src/acme.rs:626-630 | The first http-01 challenge of the list, missing only if there is none |
| AcmeHttp01.Authorize | crates/open-web-server-gateway/src/acme.rs:624-641 | The loop body as specified; the store changes as the trace says |
| AcmeRuns.AuthorizeSafe | crates/open-web-server-gateway/src/acme.rs:624-641 | One authorization: at most 22 POSTs; success leaves no token, failure at most this one |
| AcmeRuns.FinishTraffic | crates/open-web-server-gateway/src/acme.rs:643-656 | Finalize, poll, download: at most 22 POSTs, and the store is left alone |
| IpAllowlist.MatchIffSameQuotient | crates/open-web-server-gateway/src/ip_allowlist.rs:50-65 | For every prefix length, IPv4 and IPv6: mask matching is agreement of network and candidate under division by 2^(W-p) |
| IpAllowlist.MaskedEqualIffPrefixEqual | crates/open-web-server-gateway/src/ip_allowlist.rs:54-61 | Equality under the mask is equality of the first p bits, also for p = 0, which is treated apart |
| IpAllowlist.AdmitsExactlyItsBlock | crates/open-web-server-gateway/src/ip_allowlist.rs:50-65 | An entry admits exactly the addresses of its family in one block aligned to its size; families never match each other |
| IpAllowlist.EveryNumberOfTheBlockIsAdmitted | crates/open-web-server-gateway/src/ip_allowlist.rs:50-65 | All 2^(W-p) numbers of the block are addresses and are admitted |
| IpAllowlist.NestedOrDisjoint | crates/open-web-server-gateway/src/ip_allowlist.rs:50-65 | Of two entries of one family, the one with the longer prefix lies inside the other or apart from it |
| IpAllowlist.AllowedIffInSomeBlock | crates/open-web-server-gateway/src/ip_allowlist.rs:83-85 | Access is granted if and only if some well-formed entry has the candidate in its block; malformed entries and prefixes longer than the address are skipped |
| IpAllowlist.ParseIff | crates/open-web-server-gateway/src/ip_allowlist.rs:27-48 | An entry is one address, or the address before the first slash and the number behind it, at most 32 or 128 |
| Watchdog.ConsecutiveFailuresIsTheTrailingRun | crates/open-web-server-gateway/src/domain_watchdog.rs:126-139 | `consecutive_failures` is the length of the trailing run of failed checks of that host, saturating at 32 bits |
| Watchdog.ReissuesIff | crates/open-web-server-gateway/src/domain_watchdog.rs:408-440 | A check reissues the certificate if and only if there is a reissuer, the check did not get past the TLS handshake, or not even to it, and the last max(1, threshold) checks of the host all failed |
| Watchdog.TlsBrokenMeansHandshakeFailedIff | crates/open-web-server-gateway/src/domain_watchdog.rs:222-300 | Exact condition: `tls_broken` says that the handshake failed if and only if the handshake was begun; a refused or timed-out connection and an unfit host name set it too |
| Watchdog.OutageReissues | crates/open-web-server-gateway/src/domain_watchdog.rs:222-440 | Whatever happened before, the check that completes max(1, threshold) refused connections reissues the certificate, although no handshake was begun |
| Watchdog.HealthyIff | crates/open-web-server-gateway/src/domain_watchdog.rs:222-400 | A check succeeds if and only if an answer came, its status is no 5xx, and every expected text is in the first 256 KiB of the body |
| Watchdog.DetailTellsTheExit | crates/open-web-server-gateway/src/domain_watchdog.rs:229-300 | Each exit of the check has its own message |
| Watchdog.MissingTells | crates/open-web-server-gateway/src/domain_watchdog.rs:386-392 | The missing texts are the expected ones that do not occur in the body, in their order |
| Watchdog.ListedWithCommas | crates/open-web-server-gateway/src/domain_watchdog.rs:392-395 | They are listed in the message with a comma between them |
| Watchdog.JudgedByTheLastList | crates/open-web-server-gateway/src/domain_watchdog.rs:88-106 | The texts looked for are those registered last for the host |
| Watchdog.ActionIsTheLast | crates/open-web-server-gateway/src/domain_watchdog.rs:417-436 | The recovery noted for a host tells whether its last reissue succeeded, and is cleared by a good check |
| Watchdog.DiagnosisIsTheLast | crates/open-web-server-gateway/src/domain_watchdog.rs:411-415 | The diagnosis kept is the last one given, and is cleared by a good check |
| Watchdog.CheckIsShown | crates/open-web-server-gateway/src/domain_watchdog.rs:126-139 | After a check the record of its host shows its time, result and message |
| Watchdog.MissingContentNeverReissues | crates/open-web-server-gateway/src/domain_watchdog.rs:382-400 | A reachable page that lacks an expected text never reissues and never sets a recovery action |
| Watchdog.HostsAreIndependent | crates/open-web-server-gateway/src/domain_watchdog.rs:378-440 | The health of a host is a function of its own events alone |
| Watchdog.AdviceNeverDecides | crates/open-web-server-gateway/src/domain_watchdog.rs:11-16 | With any other advisor, or none, the same checks reissue the same certificates and leave the same health but for the stored diagnosis |
| Watchdog.DomainWatchdog.CheckHost | crates/open-web-server-gateway/src/domain_watchdog.rs:379-439 | One check: content is judged only if the probe was good, the result recorded, and diagnosis and reissue happen only for failures from the threshold on; returns whether the reissuer was called |
| Watchdog.DomainWatchdog.RunOnce | crates/open-web-server-gateway/src/domain_watchdog.rs:378-440 | Over all hosts, the state and the reissues are those of the run of single checks, each seeing what the ones before left |
| Watchdog.WatchdogState.Record | crates/open-web-server-gateway/src/domain_watchdog.rs:126-139 | Counts a failure, or clears count, action and diagnosis |
| Watchdog.WatchdogState.SetExpectations | crates/open-web-server-gateway/src/domain_watchdog.rs:88-97 | Replaces the list; an empty one switches the check off |
| Watchdog.TrailingRunIff | crates/open-web-server-gateway/src/domain_watchdog.rs:408-411 | The trailing run has length at least k if and only if the last k checks exist and all failed |

## Left out

- Ledger.Ledger.Commit: does not return `committed_at`, and performs its region writes one after
  another; that they overlap in any order is modelled in `LedgerProtocol`, where each is a step of
  its own and may even come after the call was dropped.
- LedgerProtocol.StepGrows: region stores are independent of each other and of the WAL; two regions
  configured on one database file are not modelled.
- LedgerPending.CanCommitIff: an append or a mark that the database carries out after its call was
  dropped is the failing step of a call that is still live until then; only region writes are
  steps that may come after the drop.
- LedgerPayloads.SerialPayloadsAgree: by the same convention a dropped call overlaps later ones until
  the database is done with its append; a later call whose check came before an append that commits
  late may store another payload.
- LedgerSerial.OneWriterPerKey: assumes that calls for one key do not overlap, as overlapping calls
  can both pass the check and the append; `LedgerTheorems` makes no such assumption.
- The UDP side channel and the disaster e-mail of `commit`: they never affect its result.
- The in-memory WAL: its code is not part of this model; only the PostgreSQL rows are.
- AuditLog.FileAuditLog.Append: a torn write, which leaves part of a line, is not modelled; the
  scan of an arbitrary file is.
- TwoFactorTheorems.AtMostEightFailures: races between the lock check and the recording of a
  failure are not modelled; calls are serialised.
- TwoFactor.TwoFactorStore.VerifyLogin: the texts of codes are already trimmed, and the TOTP text
  parsed, before they reach the model.
- The otpauth URL, the QR code, sending mail, and generating secrets, codes and keys: inputs here.
- RateLimit.AdmissionBound: rounding of floating-point numbers is not modelled.
- RateLimit.FromEnv: the values `NaN` and infinity, which the text of a setting can give, are not
  reals and are not modelled.
- KeyGuardian.AcceptedIff: rounding of floating-point numbers is not modelled; gaps are whole
  milliseconds as in the code.
- TenantRouter.HostPart: an IPv6 literal as host header is cut at its first colon, as in the code.
- TOML, JSON, SQL and gzip as text or bytes: files hold what they parse to.
- AccessLog.AccessLogger.WriteEntry: a torn append is not modelled, and with `max_backups` = 0 the
  ignored failure to remove the current file is visible only as the missing promise for that case.
- AcmeHttp01.ObtainCertificateHttp01: other runs that use the same challenge store at the same time, the
  waiting between polls, JWS signing and the certificate request are not modelled; the directory is
  an input.
- IpAllowlist.AllowedIffInSomeBlock: the text format of addresses and numbers is a parameter.
- Watchdog.DomainWatchdog.CheckHost: what the network answers at each stage of the probe, what the
  advisor says and what the reissuer returns are inputs of each check; so is the decoding of a body.
- The handler that serves a published challenge, or one found in a directory of files.
- Handlers, HTTP, TLS, SSH, DNS and port-mapping code, environment parsing, telemetry, mobile
  shells: foreign input and output without logic of their own.
- Redirects, rewriting, PHP, virtual hosts, app proxy, self update, power profile, and the registries
  of names and settings.
