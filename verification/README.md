# ky-primitives: a verified model

Dafny models of the parts of ky-primitives whose guarantees span several operations,
concurrent callers or whole runs, with proofs of those guarantees. `dafny verify
dfyconfig.toml` checks everything.

| files | component |
|---|---|
| `ByteValues`, `Sequences`, `Gf256`, `Polynomial`, `Interpolation`, `Shamir`, `ShamirCombine`, `ShamirSecrecy` | splitting a secret over GF(2^8) and combining shares |
| `Wrappers`, `Text`, `ShareCard`, `CardIntegrity`, `CardRecovery` | optional values, strings, and the text on a custodian's card |
| `Base64`, `Encodings` | base64, and what every text encoding reads and writes, character by character |
| `Phc`, `HashAdmission` | the stored form of a password hash, alone and before the derivation budget |
| `Sums`, `AdmissionQueue`, `AdmissionOutcomes` | the two-dimensional derivation budget |
| `AuditRecord`, `AuditChain`, `AuditVerdicts`, `AuditRuns`, `AuditOutcomes` | the anchored hash chain |
| `KeyCache`, `KeyFreshness`, `KeyLocks` | the OIDC verifier's cache of signing keys |
| `KeyFile`, `KeyFileFormat`, `KeyFileOutcomes` | the first-boot race for a key file, and the file's bytes |
| `CapsulePath`, `Capsule`, `CapsuleExtract`, `CapsuleRoundTrip`, `CapsuleIntegrity`, `CapsuleSparse` | building and extracting a capsule's payload |
| `ReplayGuard`, `EventFreshness` | the bounded in-process replay guard, alone and behind the freshness test |
| `LocalCopies`, `LocalNames` | app-name escaping, listing and pruning of local backups |

Code that updates something in place is modelled by methods over arrays, loops and
classes, each proved against a function of its inputs or of the old state; the theorems are
about those functions. Concurrent code is modelled as a machine: a state, the atomic
critical sections as steps, and invariants proved over every run of every number of callers.
`AdmissionQueue.Budget` and `KeyCache.Verifier` give each atomic section of their machine a
body, proved against the functions the machine's steps apply; `AuditChain.Chain` does the
same for one caller of the audit chain, whose machine shares the record it mints.
`KeyFile.Directory` is one whole call on its own, with any fault and at most one rival, and
shares the encodings with its machine, which takes every file operation as a step.

What a specification function computes is also said without it, in the terms a caller has:
numbers for constants, differences of clock readings, characters of a text, what a run did
to whom. Such theorems are in `ShamirSecrecy`, `CardIntegrity`, `Encodings`,
`HashAdmission`, `AdmissionOutcomes`, `AuditVerdicts`, `AuditOutcomes`, `KeyFreshness`,
`KeyFileFormat`, `KeyFileOutcomes`, `CapsuleIntegrity` and `LocalNames`.

Go strings are sequences of characters, one for each byte. Integer widths are written out
where they can be exceeded: the audit chain counts modulo 2^64, `ParseInt` and
`ParseUint32` stop at the ends of their ranges, and durations saturate. Everything outside
the components is a parameter and every theorem holds for all of its values: SHA-256 and
HMAC-SHA256 are arbitrary functions to 32 bytes, the list's JSON codec and the size of tar
headers are arbitrary functions, random bytes are arbitrary inputs, clocks are arbitrary
non-decreasing readings, and timers and crashes are steps that may happen at any point.
Where a result needs the MAC not to collide, it says so without assuming it: the two logs
are equal, or the lemma returns two different texts with the same MAC.

## Where the code and its comments differ

The model follows the code.

- shamir/shamir.go:203-205 says too few shares give a wrong secret; line 247 answers with an
  error (`ShamirCombine.Combine`). That the sum would be wrong is proved as well
  (`ShamirCombine.TooFewSharesMiss`).
- capsule/seal.go:124 says every limit Open enforces is enforced when sealing. Sealing counts
  contents and list, extraction counts the whole stream. `CapsuleRoundTrip.SealedButNeverOpened`
  gives files that are sealed and can never be opened; `CapsuleRoundTrip.SealedFilesComeBack`
  gives the exact condition, which on disk also asks that no file's path is a directory of
  another's or one the file system refuses, such as a name too long for it.
- capsule/extract.go:35 and 65-66 say MaxExpandedBytes holds across the whole archive and
  bounds total expansion once and for all. It bounds the tar stream; a sparse member's holes
  are delivered without being read from it. `CapsuleSparse.SparseMembersPassTheBudget` gives
  archives of any number of members up to MaxFiles that deliver 64 MiB each, past the budget
  from the fifth on. `CapsuleSparse.BudgetHoldsExactly` says when the budget holds: over all
  archives with at most k sparse members, exactly when k is zero.
- syncauth/syncauth.go:197-200 says the guard is full only when every remembered id is still
  inside the window. Eviction stops at the first live id, so expired ids behind it stay
  (`ReplayGuard.FullWithOneLiveId`); `ReplayGuard.AllLiveExactly` says exactly when none do,
  and `ReplayGuard.FullMeansLiveExactly` that none do, over all histories, exactly when
  timestamps never go back or there is room for a single id.
- syncauth/syncauth.go:150-153 has the guard refuse an event that was already accepted. With
  the two windows equal, as both defaults are, a copy that arrives exactly at the end of both
  is accepted again: the freshness test includes that instant and the guard forgets at it.
  `EventFreshness.NeverTwiceExactly` says which windows rule that out.
- oidcverify/oidcverify.go:304-308 promises at most one refresh per MinRefresh. An attempt
  made while the clock reads the zero time is not remembered
  (`KeyCache.ZeroTimeDefeatsTheLimit`); `KeyCache.LimitHoldsExactly` says that the limit holds
  over every run exactly when the clock starts after the zero time.
- auditchain/auditchain.go:123-126 says a record numbered zero after a wrap can never
  verify. `VerifyStream` counts modulo 2^64 as well, so the log of a chain that wraps does
  verify (`AuditChain.WrappedLogVerifies`); the theorems that need a count to mean a length
  say so.

## Model

| member | source | states |
|---|---|---|
| `Gf256.Mul` | shamir/shamir.go:286-298 | the eight branch-free rounds compute the field product |
| `Gf256.FieldIsAes` | shamir/shamir.go:10-15 | the field is the AES one: its modulus, and the product given in section 4.2 of FIPS 197 |
| `Gf256.TimesCommutes` | shamir/shamir.go:288-298 | multiplication commutes, although the loop treats its two factors differently |
| `Gf256.TimesAssociates` | shamir/shamir.go:288-298 | multiplication associates |
| `Gf256.TimesAdd` | shamir/shamir.go:288-298 | multiplication distributes over XOR |
| `Gf256.NoZeroDivisors` | shamir/shamir.go:288-298 | a product is zero only if a factor is |
| `Gf256.Invert` | shamir/shamir.go:300-311 | the square-and-multiply loop over the bits of 254 computes the 254th power |
| `Gf256.InverseIsInverse` | shamir/shamir.go:300-302 | the 254th power of every non-zero byte is its inverse |
| `Polynomial.Evaluate` | shamir/shamir.go:277-284 | the loop from the top coefficient computes Horner's value |
| `Polynomial.EvalIsPowerSum` | shamir/shamir.go:277-284 | Horner's value is the sum of the terms p[i] x^i |
| `Polynomial.SyntheticDivision` | shamir/shamir.go:251-264 | p(x) - p(r) is (x - r) times the quotient, the step behind the root bound |
| `Polynomial.RootBound` | shamir/shamir.go:186-187 | a polynomial with as many roots as coefficients is zero |
| `Interpolation.InterpolantPassesThrough` | shamir/shamir.go:251-264 | the Lagrange sum through distinct points takes the given value at each |
| `Interpolation.AgreeingPolynomials` | shamir/shamir.go:186-187 | two polynomials of n coefficients that agree on n points are equal |
| `Interpolation.InterpolationRecovers` | shamir/shamir.go:203-205 | through at least as many points as coefficients, the Lagrange sum recovers the polynomial's value anywhere |
| `Shamir.Resample` | shamir/shamir.go:186-195 | redraws until the leading coefficient is not zero, never touching the constant term |
| `Shamir.FillColumn` | shamir/shamir.go:196-198 | one byte of every share is the polynomial at that share's index, and no other byte changes |
| `Shamir.FillColumns` | shamir/shamir.go:183-199 | each byte of the secret is hidden under its own accepted draw, though the buffer is shared |
| `Shamir.Deal` | shamir/shamir.go:173-200 | the shares dealt are a split of the secret under polynomials whose top coefficient is not zero |
| `Shamir.Split` | shamir/shamir.go:149-201 | each refusal in order, failure exactly when randomness runs out, and otherwise a split with indices 1..total |
| `Shamir.SplitAcceptsExactly` | shamir/shamir.go:151-172 | a split is refused exactly outside one byte to 1 MiB, a threshold from two to the total and a total of at most 255, each refusal for its own bound |
| `ShamirSecrecy.EveryChoiceIsDealt` | shamir/shamir.go:183-199 | every choice of admissible polynomials, one for each byte, is dealt for some random tape: no draw is thrown away but those that lower the degree |
| `ShamirSecrecy.SplitIsDetermined` | shamir/shamir.go:173-200 | one secret, threshold, set and choice of polynomials give one list of shares |
| `ShamirCombine.CheckShares` | shamir/shamir.go:217-228 | answers the first fault of the first faulty share: index zero, repeated index, differing length |
| `ShamirCombine.BasisAtZero` | shamir/shamir.go:251-264 | numerator over denominator is the basis polynomial's value at zero |
| `ShamirCombine.WeightedSum` | shamir/shamir.go:268-271 | the accumulated byte is the Lagrange sum at zero |
| `ShamirCombine.Interpolate` | shamir/shamir.go:251-274 | every byte returned is the value at zero of the polynomial through that byte of the shares |
| `ShamirCombine.Combine` | shamir/shamir.go:206-275 | succeeds exactly on consistent shares, then reconstructs, and otherwise gives the error of the first failing check |
| `ShamirCombine.ConsistentExactly` | shamir/shamir.go:206-249 | accepted are exactly two shares or more, as many as their threshold, that agree pair by pair on set, threshold and length, at distinct non-zero indices |
| `ShamirCombine.RefusesExactly` | shamir/shamir.go:206-249 | which refusal any list gets, by its first unsound share and then by what the shares declare |
| `ShamirCombine.QuorumReconstructs` | shamir/shamir.go:149-150 | any threshold or more distinct shares of one split, in any order, are consistent and reconstruct exactly the secret |
| `ShamirCombine.TooFewSharesMiss` | shamir/shamir.go:186-187 | one share short, the sum is wrong at every byte because the leading coefficient is not zero |
| `ShamirCombine.EveryOtherByteIsPossible` | shamir/shamir.go:186-199 | one share short, a byte is possible exactly when it is not the Lagrange sum's, and then under one admissible polynomial |
| `ShamirCombine.TooFewSharesRevealNothingMore` | shamir/shamir.go:70-73 | the same for any threshold - 1 shares of a split: their sum misses the secret and every other byte stays equally explained |
| `ShamirSecrecy.EveryOpenSecretIsPossible` | shamir/shamir.go:186-199 | one share short, for every secret that differs from the sum at each byte there is a random tape with which Split deals shares that include those very ones |
| `ShareCard.ParseOfPrint` | shamir/shamir.go:81-147 | a printed share parses back to itself, also with space of any kind around it |
| `ShareCard.AcceptedExactly` | shamir/shamir.go:105-147 | a card is accepted exactly when its trimmed text is five fields under their own checksum that spell a share in range |
| `CardIntegrity.PrintedFields` | shamir/shamir.go:81-104 | a card spells the tag, the threshold, the set, the index and the value, byte for byte, and the first two bytes of the digest of all that precedes them |
| `CardIntegrity.AcceptedUnderItsCheck` | shamir/shamir.go:118-121 | the text of an accepted card is a body and four digits that read as the first two bytes of that body's digest |
| `CardIntegrity.OtherBodyIsRefused` | shamir/shamir.go:85-86 | a card with a printed card's last field under any other body is refused, or the two bodies' digests begin alike |
| `CardIntegrity.MistypedCardIsRefused` | shamir/shamir.go:85-86 | one character mistyped anywhere in a printed card, as anything: refused, or the two bodies' digests begin alike |
| `CardIntegrity.RefusedExactly` | shamir/shamir.go:105-147 | each refusal exactly, by the first field at fault |
| `ShareCard.AcceptedCardsReprint` | shamir/shamir.go:81-147 | whatever parses prints to a card that parses to the same share |
| `ShareCard.PrintIsInjective` | shamir/shamir.go:81-103 | different shares never print the same card |
| `CardRecovery.CardsGiveTheSecretBack` | shamir/shamir.go:81-275 | any threshold or more printed cards of one split are read back and together give the secret |
| `Text.TrimSpaceAround` | shamir/shamir.go:105-108 | trimming removes exactly the space put around text that begins and ends with something else |
| `Encodings.TrimsExactly` | shamir/shamir.go:105-108 | trimming takes the UTF-8 forms of Unicode white space, all of them and nothing else, off both ends of any text |
| `Encodings.DecodesExactly` | shamir/shamir.go:126-142 | hexadecimal reads two digits for each byte, the high one first, in either case, and nothing else |
| `Encodings.DecodableExactly` | shamir/shamir.go:126-142 | exactly the even numbers of hexadecimal digits decode |
| `Encodings.EncodesExactly` | shamir/shamir.go:93-103 | each byte is written as its two lower-case digits |
| `Encodings.ValueByPlace` | shamir/shamir.go:122-134 | each decimal digit counts its power of ten |
| `Encodings.FormatExactly` | shamir/shamir.go:93-98 | a number is written as the one string of its value without leading zeros |
| `Encodings.IntegerExactly` | shamir/shamir.go:122-134 | an integer is an optional sign and digits, refused outside 64 bits |
| `Base64.RawRoundTrip` | password/password.go:352-356 | unpadded base64 of any bytes decodes to them |
| `Base64.PaddedRoundTrip` | keyfile/encoding.go:45-60 | padded base64 of any bytes decodes to them |
| `Encodings.RawDecodesExactly` | password/password.go:485-494 | unpadded base64 accepts exactly the letters of whole bytes, bit for bit, skipping line breaks and ignoring the unused bits of the last letter |
| `Encodings.PaddedDecodesExactly` | keyfile/encoding.go:41-51 | padded base64 accepts exactly whole groups of four characters, the last with at most two signs of padding |
| `Encodings.UnusedBitsAreZero` | password/password.go:351-356 | encoding leaves the unused bits of the last letter zero |
| `Phc.ReadParams` | password/password.go:405-429 | the field-by-field loop computes the strict parse of the parameters |
| `Phc.ParamsAcceptedExactly` | password/password.go:398-434 | a segment is accepted exactly when it is the canonical spelling of parameters inside the band |
| `Phc.ParseOfEncode` | password/password.go:351-356 | parse gives back what encode printed exactly when parameters, salt and key are within their bounds |
| `Phc.ParseAcceptsExactly` | password/password.go:452-494 | the strings that parse are exactly the fixed header, canonical parameters and two base64 texts of fitting sizes |
| `HashAdmission.HashesInFull` | password/password.go:398-494 | the same with nothing named: the text in full, and every bound as a number |
| `HashAdmission.StoredHashesAreAdmissible` | password/password.go:358-370 | whatever hash is stored, verifying it never exceeds the derivation budget: only its timer can refuse it, over every run |
| `AdmissionQueue.Budget.TryReserve` | password/password.go:183-195 | takes memory and lanes together, or neither |
| `AdmissionQueue.StepConserves` | password/password.go:182-224 | every step keeps free plus held equal to the budget, in memory and in lanes, and never negative |
| `AdmissionQueue.StepKeepsOneNegotiator` | password/password.go:165-199 | every step keeps the queue token out exactly when one caller, and only one, holds it |
| `AdmissionQueue.StepLosesNoWakeup` | password/password.go:206-223 | no step strands a waiter whose request fits: a token is there or a releaser is about to leave one |
| `AdmissionQueue.RunsKeepInv` | password/password.go:148-224 | conservation, one negotiator and no lost wakeup hold after every run, timeouts and panics included |
| `AdmissionQueue.RoomNeverShrinksUnderNegotiator` | password/password.go:150-156 | while a caller negotiates, no other step makes less room |
| `AdmissionQueue.NeverStuck` | password/password.go:148-212 | with no derivation running, someone past the door has a step that needs no timer |
| `AdmissionQueue.TimerFreeRunsAreBounded` | password/password.go:182-211 | without timers no run goes on for ever: its length is bounded by the start state |
| `AdmissionQueue.CompleteRunsServeEveryone` | password/password.go:157-212 | a timer-free run that cannot go on has served every satisfiable caller, refused only the rest, and restored the budget |
| `AdmissionQueue.AllFinishedRestores` | password/password.go:174-200 | when all callers are done, by any exit, everything reserved and the queue token are back |
| `AdmissionOutcomes.OutcomesAreEarned` | password/password.go:157-212 | over every run, a caller is told busy exactly when its request exceeds 256 MiB or 16 lanes or its timer fired, and then never derives; otherwise it derives once, and that derivation decides between a result and a panic |
| `AdmissionOutcomes.CompleteRunsDeriveExactly` | password/password.go:157-212 | a timer-free run that cannot go on has derived for exactly the requests within 256 MiB and 16 lanes |
| `AdmissionOutcomes.TimersAlwaysFire` | password/password.go:165-171 | whoever waits can be timed out at once, and has then only the queue to leave |
| `AuditRecord.PreImageIsInjective` | auditchain/auditchain.go:263-283 | the length-prefixed encoding determines sequence, predecessor and every field |
| `AuditRecord.DigestDetermines` | auditchain/auditchain.go:263-283 | equal digests come from equal records or exhibit a MAC collision |
| `AuditVerdicts.PreImageOpens` | auditchain/auditchain.go:263-283 | where each part of the pre-image stands, and that its numbers are eight bytes, most significant first |
| `AuditVerdicts.FieldsFollow` | auditchain/auditchain.go:272-282 | each field stands after its length, in order |
| `AuditVerdicts.ValidHashExactly` | auditchain/auditchain.go:247-261 | the well-formed hashes are exactly the hexadecimal forms of 32 bytes |
| `AuditVerdicts.GenesisIsZeros` | auditchain/auditchain.go:30 | the first predecessor is sixty-four zeros |
| `AuditRecord.ExtendLinked` | auditchain/auditchain.go:213-231 | a linked log stays linked exactly under a record that follows its head |
| `AuditRecord.CheckRecord` | auditchain/auditchain.go:218-229 | the four checks of one record in the walk |
| `AuditRecord.VerifyStream` | auditchain/auditchain.go:197-245 | the walk answers weak key, broken, truncated, read failure or verified as the whole log and anchor demand |
| `AuditChain.VerifiedExactly` | auditchain/auditchain.go:184-245 | verification succeeds exactly on a fully read, completely linked log that ends at its anchor |
| `AuditVerdicts.TruncatedExactly` | auditchain/auditchain.go:233-235 | a log is called truncated exactly when all of it was read and links, and it has fewer records than the anchor counts |
| `AuditVerdicts.ReadFailedExactly` | auditchain/auditchain.go:191-196 | a read is called failed exactly when it failed after records that link, whatever the anchor says |
| `AuditVerdicts.FaultIsReportedFirst` | auditchain/auditchain.go:212-231 | a fault in the records is reported before a failure to read further |
| `AuditVerdicts.CompleteLogIsCompared` | auditchain/auditchain.go:233-244 | a linked log read to its end is truncated, broken or verified exactly as its count and head compare with the anchor's |
| `AuditVerdicts.RefusedUnread` | auditchain/auditchain.go:197-203 | a short key and a malformed anchor are refused before anything is read |
| `AuditChain.PrefixIsTruncated` | auditchain/auditchain.go:233-235 | every strict prefix of an accepted log is refused as truncated |
| `AuditChain.OneLogPerAnchor` | auditchain/auditchain.go:184-245 | two logs accepted under one key and anchor are identical record for record, or exhibit a MAC collision |
| `AuditChain.OnlyTheTailResumes` | auditchain/auditchain.go:103-135 | of an accepted log exactly the last record resumes, and not even that at the top of the counter |
| `AuditChain.ResumedRecordIsTheTail` | auditchain/auditchain.go:103-135 | whatever record resumes at a log's anchor is that log's tail, or exhibits a MAC collision |
| `AuditChain.WrappedLogVerifies` | auditchain/auditchain.go:123-128 | the log of a chain that wrapped, its last record numbered zero, verifies against its anchor |
| `AuditChain.Chain.constructor` | auditchain/auditchain.go:78-84 | a new chain stands at the genesis hash and is in step with the empty log |
| `AuditChain.Chain.New` | auditchain/auditchain.go:78-84 | refuses exactly the keys that are too short |
| `AuditChain.Chain.Resume` | auditchain/auditchain.go:115-135 | continues exactly what is resumable, in step with every log its anchor accounts for |
| `AuditChain.Chain.Append` | auditchain/auditchain.go:137-175 | stores and advances together or changes nothing, and stays in step with the stored log |
| `AuditChain.Chain.CurrentAnchor` | auditchain/auditchain.go:177-182 | the anchor returned verifies every log the chain is in step with |
| `AuditChain.MintedExtends` | auditchain/auditchain.go:160-173 | the minted record extends every log the chain was in step with |
| `AuditVerdicts.VerifiesExactlyWhatIsMinted` | auditchain/verify_record.go:10-36 | a record verifies by itself exactly when Append could have built it on some head and count |
| `AuditChain.Replay` | auditchain/verify_record.go:38-63 | one record for each tuple, in order, verifying against the anchor returned |
| `AuditRuns.StepKeepsOneHolder` | auditchain/auditchain.go:86-101 | at most one append holds the chain's lock |
| `AuditRuns.StepKeepsLogInStep` | auditchain/auditchain.go:160-173 | the stored log matches the chain's memory, or is one record ahead while its writer still holds the lock |
| `AuditRuns.RunsKeepInv` | auditchain/auditchain.go:64-175 | both hold, and each successful caller owns exactly one record, after any interleaving of appends, cancelled and failing ones included |
| `AuditRuns.UnlockedLogVerifies` | auditchain/auditchain.go:137-182 | whenever the lock is free the log verifies against the anchor, is numbered from one, and holds each caller's record where its number says |
| `AuditOutcomes.AppendsAreEarned` | auditchain/auditchain.go:137-175 | over every run, an append that came back succeeded exactly when its record was stored, and failed exactly when its caller gave up or its store failed |
| `AuditOutcomes.LogFollowsTheStores` | auditchain/auditchain.go:137-175 | over every run the log grows by one record for each store, in the order of the stores, with the fields of whoever stored it |
| `AuditOutcomes.NeverStuck` | auditchain/auditchain.go:86-101 | while an append has not come back, some append can go on without giving up |
| `AuditOutcomes.WaitersCanGiveUp` | auditchain/auditchain.go:58-63 | whoever waits for the lock can give up at once, and changes nothing |
| `KeyCache.Verifier.FirstLook` | oidcverify/oidcverify.go:310-333 | answers a fresh known key, anything after a recent attempt, or sends the caller to fetch |
| `KeyCache.Verifier.SecondLook` | oidcverify/oidcverify.go:337-352 | looks again under the fetch lock, and claims the attempt exactly when it sends the caller on |
| `KeyCache.Verifier.Finish` | oidcverify/oidcverify.go:356-370 | installs a fetched set, keeps the stale one on error, and answers from whichever is current |
| `KeyCache.StepKeepsSingleFlight` | oidcverify/oidcverify.go:335-336 | at most one fetch is in flight |
| `KeyCache.StepKeepsSpaced` | oidcverify/oidcverify.go:304-308 | consecutive fetches start at least MinRefresh apart, failed or not, unless the earlier began at the zero time |
| `KeyCache.StepKeepsTruthful` | oidcverify/oidcverify.go:337-370 | an answer never refuses a kid that stayed cached, and a key handed out was current during the call |
| `KeyCache.RunsKeepInv` | oidcverify/oidcverify.go:309-371 | all three hold after every interleaving of lookups, clock readings and fetch outcomes |
| `KeyCache.StayingKidIsFound` | oidcverify/oidcverify.go:337-362 | a kid in the cached set for the whole call is answered with a key |
| `KeyCache.FetchAllowedExactly` | oidcverify/oidcverify.go:337-352 | in every reachable state the second look fetches exactly for a kid unknown or stale, when the last fetch is MinRefresh ago, began at the zero time, or never was |
| `KeyFreshness.FirstLookExactly` | oidcverify/oidcverify.go:320-333 | in plain arithmetic on clock readings: the first look answers exactly when the kid is listed and the set younger than MaxAge, or a fetch began within MinRefresh |
| `KeyFreshness.SecondLookExactly` | oidcverify/oidcverify.go:337-352 | so does the second look, with the later reading for the refresh limit |
| `KeyFreshness.StaleSetIsFetched` | oidcverify/oidcverify.go:320-343 | with a set of MaxAge or more and no fetch within MinRefresh neither look answers, whatever the kid |
| `KeyFreshness.CacheIsTheRecord` | oidcverify/oidcverify.go:343-367 | over every run the cache is the last set fetched, stamped when it came back, and the time the last fetch began |
| `KeyFreshness.EveryAnswerIsJustified` | oidcverify/oidcverify.go:309-371 | every answer of every run traces to one step: a key comes from a set younger than MaxAge, from the set at hand within MinRefresh of a fetch, from the lookup's own fetch, or from the set at hand when that fetch failed; and likewise each refusal |
| `KeyFreshness.KidInEverySetIsFound` | oidcverify/oidcverify.go:309-371 | a kid in the cached set at every moment from the beginning of a call is answered with a key |
| `KeyFreshness.NotesAreTrue` | oidcverify/oidcverify.go:309-371 | what the machine notes about a call is so: the set current at its beginning, and whether its kid was cached at every moment since |
| `KeyFreshness.UnservedGoesOn` | oidcverify/oidcverify.go:335-344 | a lookup goes on to wait, and then to fetch, exactly when it may not be served, and only then is a start recorded |
| `KeyCache.FetchesAreSpaced` | oidcverify/oidcverify.go:304-308 | over every run that starts after the zero time, any two fetches are MinRefresh apart for each fetch from one to the other |
| `KeyCache.LimitHoldsExactly` | oidcverify/oidcverify.go:304-308 | with two lookups or more, that holds over every run exactly when the clock starts after the zero time |
| `KeyCache.ZeroTimeDefeatsTheLimit` | oidcverify/oidcverify.go:323-343 | from every start up to the zero time, a run with two fetches at the same instant |
| `KeyCache.NeverStuck` | oidcverify/oidcverify.go:335-336 | the fetch mutex never leaves an unfinished lookup without some lookup that can move |
| `KeyLocks.RunsKeepInv` | oidcverify/oidcverify.go:320-357 | taken and released where the code does, each of the two mutexes has at most one holder |
| `KeyLocks.StateMutexIsNeverBlocked` | oidcverify/oidcverify.go:306-308 | whoever waits for the state mutex waits for a holder that can release it at once, never for a fetch |
| `KeyLocks.NeverStuck` | oidcverify/oidcverify.go:320-357 | the two mutexes together never deadlock |
| `KeyLocks.CompleteRunsFinishEveryone` | oidcverify/oidcverify.go:320-357 | a run of any number of lookups that cannot go on has finished them all, with both mutexes free |
| `KeyLocks.StepsAreLockRuns` | oidcverify/oidcverify.go:320-357 | each step of the cache is a run of lock operations in the code's order, the state mutex free before and after |
| `KeyLocks.SectionsAreAtomic` | oidcverify/oidcverify.go:320-357 | every interleaving of lock operations that leaves the state mutex free amounts to one with undivided sections: same end, same steps of each lookup, same order of sections |
| `KeyFile.ReadKey` | keyfile/keyfile.go:169-202 | an accepted file is within the read limit and holds a key of exactly the wanted size; anything else is unreadable |
| `KeyFile.ReadOfEncode` | keyfile/encoding.go:41-66 | each encoding of a key of any allowed size reads back as that key, within the read limit |
| `KeyFileFormat.WrittenExactly` | keyfile/encoding.go:53-66 | the bytes written in each encoding |
| `KeyFileFormat.HexReadExactly` | keyfile/encoding.go:41-51 | the hexadecimal files that are read as a given key, exactly |
| `KeyFileFormat.PaddedReadExactly` | keyfile/encoding.go:41-51 | the base64 files that are read as a given key, exactly |
| `KeyFileFormat.EncodingNumbers` | keyfile/encoding.go:20-39 | zero, one and two mean hexadecimal, raw and base64, and nothing else means anything |
| `KeyFile.Directory.Link` | keyfile/keyfile.go:285-289 | links exactly when the name is free, and never replaces what is there |
| `KeyFile.Directory.Write` | keyfile/keyfile.go:253-293 | with a fault at any step, or the name taken, the name holds what it held or one whole encoding, and no temporary file is left |
| `KeyFile.Directory.LoadOrCreateEncoded` | keyfile/keyfile.go:52-87 | for every fault and rival, the answer and the bytes under the name: an existing file is never changed, losing the race reads the rival's key, success returns what is on disk |
| `KeyFile.StepKeepsContent` | keyfile/keyfile.go:235-293 | no step of any process changes or removes bytes under the final name |
| `KeyFile.StepIsHonest` | keyfile/keyfile.go:59-87 | what a process is about to say agrees with what is under the final name |
| `KeyFile.RunsKeepContent` | keyfile/keyfile.go:59-87 | both hold after every run with crashes and faults between any two steps |
| `KeyFile.OneKeyForEveryone` | keyfile/keyfile.go:59-87 | from an absent path, it stays absent or holds one whole key, and every call that returns a key returns that one |
| `KeyFile.EarlierFileStays` | keyfile/keyfile.go:26-30 | a file that was there first is never replaced and every answer is about it |
| `KeyFileOutcomes.FailuresAreOwn` | keyfile/keyfile.go:59-87 | over every run, a call that comes back reports a failed step exactly when one of its own failed, whatever its rivals do |
| `KeyFileOutcomes.UnfailingCallsReturnTheKey` | keyfile/keyfile.go:59-87 | on an absent path a call whose own steps do not fail returns a key, winner or not, and that key is what is on disk |
| `KeyFileOutcomes.UnfailingCallsReadTheEarlierFile` | keyfile/keyfile.go:26-30 | on a taken path it answers exactly what the earlier file reads as |
| `KeyFileOutcomes.NobodyWaits` | keyfile/keyfile.go:52-58 | a call in progress always has a step of its own to take |
| `CapsulePath.AcceptedExactly` | capsule/extract.go:257-272 | a name is accepted exactly when it is plain and following it never climbs above the target and ends below it; the result spells where |
| `CapsulePath.AcceptedNamesAreNormal` | capsule/extract.go:257-272 | an accepted name has only proper components, is a fixed point, and is not the reserved name |
| `CapsulePath.ReservedIsNotNormal` | capsule/extract.go:42-49 | the reserved name is no cleaned path |
| `Capsule.Clamp` | capsule/extract.go:154-160 | a restored mode is not zero and has owner bits only |
| `CapsuleIntegrity.ClampExactly` | capsule/extract.go:154-160 | the owner's three bits survive one by one, all others go, and a mode left empty becomes owner read-write |
| `Capsule.Admit` | capsule/seal.go:148-166 | the checks of one file, in order: name, duplicate, size, running total |
| `Capsule.AppendList` | capsule/seal.go:194-218 | the list goes last under its reserved name, within both of its limits |
| `Capsule.BuildPayload` | capsule/seal.go:135-227 | the loop builds the archive of the normalised files and their list, or gives the first fault |
| `CapsuleIntegrity.EntryExactly` | capsule/seal.go:185-192 | an entry describes exactly the file with its path, size and mode whose bytes have the digest it spells |
| `CapsuleIntegrity.FileRefusedExactly` | capsule/seal.go:148-166 | what sealing refuses one file for, exactly |
| `CapsuleIntegrity.FirstRefusalDecides` | capsule/seal.go:145-166 | sealing gives the refusal of the first file that is refused |
| `CapsuleExtract.Target.Prepare` | capsule/extract.go:274-311 | makes an absent target, refuses a non-empty one, and says which it did |
| `CapsuleExtract.Target.WriteInto` | capsule/extract.go:313-330 | creates a file and its directories exactly when nothing is in the way and the file system refuses nothing; a failure may leave directories and part of the file |
| `CapsuleExtract.Target.Rollback` | capsule/extract.go:220-238 | removing the target's own entries one by one empties it, whatever a failed extraction left below them; a target made here goes whole |
| `CapsuleExtract.TakeFile` | capsule/extract.go:128-168 | one file: count, size, name, duplicate, content, then its place in the target |
| `CapsuleExtract.ReadFileList` | capsule/extract.go:116-126 | one list at most, within its limit, and decodable |
| `CapsuleExtract.ReconcileFileList` | capsule/extract.go:185-200 | accepts exactly the list the files themselves give, entry by entry |
| `CapsuleExtract.Unpack` | capsule/extract.go:88-183 | the member loop computes the extraction of the archive and leaves its tree in the target |
| `CapsuleExtract.ExtractPayload` | capsule/extract.go:51-183 | success returns the extraction and a target holding its tree; failure at any member, or of any write, leaves the target empty or absent as before; a non-empty target is untouched |
| `CapsuleRoundTrip.BlockedExactly` | capsule/extract.go:313-324 | a file cannot be created exactly when its path is taken, or a file stands above or below it |
| `CapsuleRoundTrip.PlacedHolds` | capsule/extract.go:163-167 | placing one more file leaves a target of exactly those files and the directories above them |
| `CapsuleIntegrity.FrameExactly` | capsule/extract.go:65-69 | what one member adds to the framed size: its header's blocks and its stored bytes, holes not counted, filled up to blocks of 512 |
| `CapsuleRoundTrip.ExtractsExactly` | capsule/extract.go:51-200 | the archives extraction accepts are exactly those that meet a condition on members, list, framed size and paths, and it returns what they say |
| `CapsuleRoundTrip.ExtractedIsSafe` | capsule/extract.go:88-182 | success means at most MaxFiles files, distinct normal paths, owner-only non-zero modes, a list equal to the files' own, and a target holding exactly them |
| `CapsuleIntegrity.OneRestorePerList` | capsule/extract.go:170-200 | two archives accepted under one file list restore the same files and tree, or exhibit a SHA-256 collision |
| `CapsuleIntegrity.ListVouchesForTheSealed` | capsule/extract.go:170-200 | an archive accepted under the list of a sealed one restores what was sealed, or exhibits a SHA-256 collision |
| `CapsuleIntegrity.MemberRefusedExactly` | capsule/extract.go:88-168 | what extraction refuses one member for, exactly |
| `CapsuleIntegrity.FirstMemberDecides` | capsule/extract.go:88-168 | extraction gives the refusal of the first member that is refused |
| `CapsuleIntegrity.EndRefusedExactly` | capsule/extract.go:88-182 | what the end of an archive is refused for, exactly |
| `CapsuleRoundTrip.BuiltExactly` | capsule/seal.go:121-206 | the file lists that can be sealed are exactly those with safe distinct names within the four limits |
| `CapsuleRoundTrip.SealedFilesComeBack` | capsule/seal.go:121-135 | what was sealed comes back, in order, normalised, with exactly the entries returned, precisely when framing fits the budget, the list survives its encoding and, on disk, no path is a directory of another or refused by the file system |
| `CapsuleIntegrity.RestoredOneByOne` | capsule/seal.go:121-135 | file by file, the bytes that come back are those sealed, under the path the name leads to and with the clamped mode |
| `CapsuleRoundTrip.SealedButNeverOpened` | capsule/seal.go:124-127 | four large files which, with a list of at most a kilobyte, every limit of sealing admits and extraction refuses, whatever the header sizes |
| `CapsuleSparse.DeliveredWithinBudget` | capsule/extract.go:65-68 | of an accepted archive the budget bounds headers and stored bytes, and so what is delivered when no member is sparse; otherwise only the limits on each file do |
| `CapsuleSparse.SparseMembersPassTheBudget` | capsule/extract.go:32-36 | up to MaxFiles sparse members of the largest size are accepted and delivered whole, past MaxExpandedBytes exactly from five on |
| `CapsuleSparse.BudgetHoldsExactly` | capsule/extract.go:65-68 | over all accepted archives with at most k sparse members, the files delivered stay within MaxExpandedBytes exactly when k is zero |
| `ReplayGuard.MemoryReplay.constructor` | syncauth/syncauth.go:213-221 | starts empty, with defaults for a window or maximum that is not positive |
| `ReplayGuard.MemoryReplay.Check` | syncauth/syncauth.go:223-244 | the whole new state: expired ids evicted from the front up to a live one, then replay, full, or recorded at the end |
| `ReplayGuard.CheckKeepsValid` | syncauth/syncauth.go:201-207 | the order stays free of duplicates, lists exactly the remembered ids and never exceeds the maximum |
| `ReplayGuard.RunKeepsValid` | syncauth/syncauth.go:201-244 | and so after any sequence of checks |
| `ReplayGuard.LiveIdIsKept` | syncauth/syncauth.go:197-200 | an id inside the window is answered as a replay and keeps its timestamp through any check |
| `ReplayGuard.ForgottenOnlyWhenExpired` | syncauth/syncauth.go:197-200 | a check forgets an id only once its timestamp has left the window |
| `ReplayGuard.RecordedEventsAreReplays` | syncauth/syncauth.go:197-244 | whatever happens in between, a recorded id is a replay until its window ends |
| `ReplayGuard.ReplaysWereRecorded` | syncauth/syncauth.go:223-244 | an event is refused as a replay only after an earlier event of its id was recorded |
| `ReplayGuard.NewIdIsRecorded` | syncauth/syncauth.go:223-244 | an id never seen is recorded while fewer than max events have come |
| `ReplayGuard.AllLiveExactly` | syncauth/syncauth.go:198-199 | after eviction everything remembered is live exactly when no live id stood before an expired one |
| `ReplayGuard.FullWithOneLiveId` | syncauth/syncauth.go:198-200 | a history after which the guard is full while one of its two ids is expired |
| `ReplayGuard.InOrderGuardIsFullOfLiveIds` | syncauth/syncauth.go:197-200 | when events are recorded in the order of their timestamps, full means max ids that are all live |
| `ReplayGuard.FullMeansLiveExactly` | syncauth/syncauth.go:197-200 | over all histories stamped at most slack back, full means live ids only exactly when the slack is not positive or the maximum is one |
| `EventFreshness.AcceptedIsRemembered` | syncauth/syncauth.go:182-193 | an accepted event is refused while the guard's clock is before its timestamp plus the window |
| `EventFreshness.FirstArrivalExactly` | syncauth/syncauth.go:182-184 | into an empty guard an event is accepted exactly when its timestamp is within the tolerance of the clock, on either side |
| `EventFreshness.StaleChangesNothing` | syncauth/syncauth.go:182-193 | an event outside the tolerance is refused and leaves the guard as it was |
| `EventFreshness.FreshIsChecked` | syncauth/syncauth.go:182-193 | an event within it is accepted exactly when the guard, after eviction, does not know its id and has room |
| `EventFreshness.NeverTwiceExactly` | syncauth/syncauth.go:182-193 | no event is ever accepted twice exactly when the guard's window exceeds the freshness tolerance plus the delay between the two clock readings |
| `LocalCopies.BuildAppNameSafe` | recoveryclient/local.go:64-79 | the byte-by-byte loop builds the escape |
| `LocalCopies.UnescapeOfEscape` | recoveryclient/local.go:62-63 | every escaped name reads back as the app it came from |
| `LocalCopies.AppNameSafeIsInjective` | recoveryclient/local.go:62-63 | different app names, of any bytes, never share an escaped name |
| `LocalCopies.AppNameSafeIsDotless` | recoveryclient/local.go:62-63 | an escaped name is never empty and has no dot |
| `LocalNames.EscapedByte` | recoveryclient/local.go:62-76 | letters, digits and dashes stand for themselves, any other byte for an underscore and two digits |
| `LocalNames.EscapesOneByOne` | recoveryclient/local.go:64-79 | the escape of a name is the escapes of its bytes, one after another, and only the empty name is a bare underscore |
| `LocalCopies.ListedForExactlyOneApp` | recoveryclient/local.go:47-56 | a copy written for one app is listed and pruned for exactly that app, whatever its capsule id |
| `LocalNames.SameNameExactly` | recoveryclient/payload.go:60-68 | two copies share a file name exactly when they are of one app and their ids agree, character by character, on everything that is kept |
| `LocalNames.OwnNameExactly` | recoveryclient/local.go:149 | the names listed for an app are exactly those that begin with its escape and a dot and end in .kycap |
| `LocalCopies.Directory.SweepStaleTemp` | recoveryclient/local.go:25-38 | one by one, removes exactly the temporary files older than an hour, but for those whose removal fails |
| `LocalNames.SweptExactly` | recoveryclient/local.go:25-38 | of the directory the sweep takes exactly the files named .kycap-... that are over an hour old and can be removed |
| `LocalCopies.Directory.ListLocalCopies` | recoveryclient/local.go:135-161 | lists each of the app's own copies once, newest first, and nothing else |
| `LocalCopies.Directory.Prune` | recoveryclient/local.go:127-131 | removes exactly the listed copies beyond keep, in order, up to a removal that fails or a crash |
| `LocalCopies.Directory.Place` | recoveryclient/local.go:94-122 | the copy appears whole under its final name or the directory is as it was; a crash leaves at most a temporary file |
| `LocalCopies.Directory.WriteLocalCopy` | recoveryclient/local.go:81-133 | the answer and the directory for every failing step and for a crash in sweeping, in the write, after the rename and between removals; in each case every copy there is one from before or the whole new one |
| `LocalCopies.TempIsNoCopy` | recoveryclient/local.go:83-85 | a temporary file, however much of it was written, is never listed as a copy of any app |
| `LocalCopies.TornTempIsSwept` | recoveryclient/local.go:18-23 | what a crash left of a temporary file is gone after any write an hour later |
| `LocalCopies.PruningIsConservative` | recoveryclient/local.go:123-132 | at most keep own copies remain, none older than a pruned one, nothing else is removed or changed, and nothing goes while there is room |
| `LocalCopies.PartialPruningIsConservative` | recoveryclient/local.go:127-131 | stopped by a failing removal, pruning has removed only own copies, each no newer than the keep newest, which all remain |
| `LocalCopies.ForeignEntriesStay` | recoveryclient/local.go:47-49 | every other entry, except a stale temporary file, is left as it was |
| `LocalCopies.OtherAppsStay` | recoveryclient/local.go:47-53 | another app's copies are never touched, whatever the two names |
| `LocalCopies.NewestCopySurvives` | recoveryclient/local.go:86-133 | the copy just written survives its own pruning when it is strictly the newest |

## Left out

- Cryptography: HPKE, AES-GCM, HMAC, SHA-256, Argon2, PBKDF2 and RSA are parameters; `recoverykey`, `derive` and the AEAD step of `capsule.Open` wrap them.
- Network code, HTTP handlers, the SCIM client, JWKS fetching and JWT parsing: a fetch is a step that may return any key set or fail.
- Timing: that field arithmetic runs without secret-dependent branches is not stated.
- Shamir.Split: random reads come from a finite tape, so the resampling loop, which has no bound of its own, ends when the tape does.
- ShareCard.AcceptedExactly: a share may have several cards ("02" for 2, upper-case hexadecimal under a matching checksum), as in the code.
- Phc.ParseAcceptsExactly: re-encoding a parsed string need not restore its base64 text, because the decoder skips line breaks and ignores trailing bits.
- Peak counters of the budget and the order in which blocked senders are admitted to the queue channel.
- AdmissionQueue.CompleteRunsServeEveryone: assumes that derivations end and that no timer fires; with timers a caller may always be turned away as busy.
- The error texts, and which of several reasons share one error value; the models keep the error kinds.
- AuditChain.OneLogPerAnchor: logs shorter than 2^64 records, since the count wraps.
- AuditChain.PrefixIsTruncated: logs shorter than 2^64 records, since the count wraps.
- Real persist functions that store a record and report failure, or the reverse: the chain cannot tell, and `AuditChain.Store` keeps a record exactly when it reports success.
- KeyCache.FetchesAreSpaced: runs whose clock starts at or before the zero time, for which `KeyCache.LimitHoldsExactly` shows the limit fails.
- Keys taken from an environment variable.
- Discovery of key files through symlinks, owner and permission checks, power loss and fsync: a write that was reported done stays done.
- The in-process mutex of key files: any interleaving of processes is allowed instead, which covers it.
- KeyFile.OneKeyForEveryone: all processes use one size and encoding, as one deployment does.
- Gzip and tar parsing: an archive is a sequence of members with a trailing length and a flag for an unreadable end. Extended headers and sparse maps are part of a member's header size, a sparse member's holes a number of its bytes; where the holes lie is not modelled. A stream that is not gzip at all is not distinguished from one that breaks before its first member.
- CapsuleExtract.Target.Prepare: errors while opening or making the target itself.
- CapsuleExtract.Target.Rollback: a removal that fails, which the code passes over in silence.
- CapsuleExtract.Target.WriteInto: what the file system refuses is any function of the path; each path is written at most once.
- JSON: a file list that does not survive its encoding, for example because a path is not UTF-8, is a condition of `CapsuleRoundTrip.SealedFilesComeBack` instead of a model of the encoder.
- Manifest fields, the container format and the manifest's size limit in `Seal`.
- LocalCopies.Directory.WriteLocalCopy: an entry whose details cannot be read; sorting breaks ties in any order.
- `FilenameSafe` on ids that are not valid UTF-8: an id is a sequence of characters.
- The header checks and MAC of `syncauth.Verify`: arrivals are any ids, timestamps and clock readings.
- Easy or branch-local code: TOTP, recovery codes, health, schedules, logging, pairing rows and the command-line verifier.
