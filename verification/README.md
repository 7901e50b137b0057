# Andromeda: verified models of the signing, session and billing core

A Dafny 4.11 project that models the parts of Andromeda where a mistake is silent: what a
credential signs, how a session is rotated and killed, when a rate limit bites, which price is
live, and what is billed. `dafny verify dfyconfig.toml` checks all of it.

Each component has the operations as the program performs them (methods over class fields, with the
program's branches, order of checks and error cases) proved equal to functions on values, and
theorems about those functions that hold for every input or every run. A run is any sequence of the
atomic steps of all parties, interleaved: requests, workers, crashes, clock ticks, refused calls.

| file | component |
|---|---|
| `TokenBucket.dfy`, `LocalLimiter.dfy` | the Redis token bucket and the capped in-memory limiter of the auth endpoints |
| `Base64Url.dfy`, `CompactJws.dfy`, `MemberSlots.dfy`, `Precompile.dfy`, `WebAuthn.dfy` | RFC 4648 base64url, RFC 7515 compact JWS, member slots, the sysvar of signature precompiles, WebAuthn challenge matching |
| `SysvarWriter.dfy`, `Signatures.dfy` | the bytes of that sysvar written down on their own, and what it takes, end to end, for a credential to count as having signed |
| `Challenge.dfy`, `OwnerAdmin.dfy` | the preimages of every signed challenge and the admin nonce gate |
| `Numerals.dfy`, `ClearSigning.dfy`, `MessageTexts.dfy`, `MessageWriter.dfy` | the text a signer reads: decimal, hexadecimal and base58, the messages, those of the OIDC and admin operations in full, and the writer into a fixed buffer |
| `GatewayChallenges.dfy` | the gateway's own construction of those texts and preimages |
| `RefreshTokens.dfy`, `RefreshSessions.dfy` | refresh-token rotation chains and the session handlers over them |
| `Pricing.dfy`, `PricingRuns.dfy` | scheduled pricing changes |
| `Overage.dfy`, `OverageRuns.dfy` | overage reporting to Stripe |
| `Gifts.dfy`, `GiftRuns.dfy` | gift cards, plan assignment and refunds |
| `Webhook.dfy` | exclusion of Stripe webhook handlers |
| `JwkRotator.dfy`, `JwkRegistry.dfy`, `JwkRegistryRuns.dfy` | vetting and activation of the providers' signing keys, and the on-chain registry they are activated in |
| `UserIndex.dfy` | the user store and its indexes |
| `Bytes.dfy` | byte strings, little-endian fields, options |

## Where the code does less than its text says

The code is modelled as it is. Each of these has a lemma with the exact condition or with a witness.

- Rate limit: the script stores `now` even when a caller's clock steps back
  (`TokenBucket.SteppedBackClockRefills`); the allowance is the plain elapsed time exactly when it
  never does (`TokenBucket.AllowanceElapsed`). The key expires by the clock of Redis and refills by the
  clocks of the callers. Expiry shows in no verdict exactly when every request finds its key or finds
  it refilled (`TokenBucket.ExpiryInvisibleIff`). The window theorems ask for that; it holds while Redis's
  clock moves at most twice as far as the callers' clocks move forward (`TokenBucket.PacedFindsAll`) and
  so for one shared clock, and can fail otherwise (`TokenBucket.OutpacedExpiryRefills`).
- Gateway challenges: gateway/internal/policy/challenges_recovery.go renders the on-chain texts and
  hashes the on-chain bytes exactly. The admin functions of gateway/internal/auth/challenges_recovery.go say that they mirror
  them byte for byte and never match one (`GatewayChallenges.OldAdminMirrorNeverMatches`).
- Refresh tokens: the SQL form of the family revocation collects the chain from its statement's
  snapshot. It leaves the family dead exactly when the token that ended the chain in the snapshot was
  not rotated in between, or all that was issued in its place is dead already
  (`RefreshTokens.SnapshotRevocationIff`); a rotation that commits in between is a child it misses
  (`RefreshTokens.RotationOutrunsSnapshot`). The statement that signs a user out leaves alive exactly
  what was issued to the user after its snapshot (`RefreshSessions.LogoutSpares`), so a rotation in
  between keeps the user signed in (`RefreshSessions.RotationOutlivesLogout`). The in-memory forms hold
  the lock.
- Pricing: a transaction that fails for a reason of its own lets an older change be applied over a
  newer one at the next tick (`PricingRuns.LostTransactionReorders`); one application keeps the live
  values right exactly under the condition of `PricingRuns.KeepsLiveIffInOrder`. Creation accepts
  changes that no run ever applies, such as a route cost of zero (`PricingRuns.AcceptedButNeverApplied`,
  `PricingRuns.ZeroRouteCostIsAccepted`); a due change is applied exactly when its column takes the
  value and its plan exists (`PricingRuns.DueIsAppliedIff`).
- Overage: the worker's comment says that it never bills twice. It does when usage moves between a
  failed advance and its retry (`OverageRuns.MovedCounterIsBilledTwice`,
  `OverageRuns.TenAreBilledTwice`); the exact condition is
  `OverageRuns.KnownIffWaits`. The gateway sets `overage_used_tokens` to zero at rollover
  (gateway/internal/store/consume.go:115-121) without touching `overage_reported_tokens`. What is
  recorded in the end is the larger of the usage since and what was recorded once the tick in progress,
  if any, was done with the subscription; so all that was used since is reported exactly when one of
  the two is zero (`OverageRuns.RolloverIsUnderreported`).
- Gifts: the response announces monthly * months tokens, but a card that opens a subscription adds
  one month's allowance (`GiftRuns.AnnouncedTokensAreAddedIff`). A subscription is on the highest tier
  it was given, but an admin may edit the order of the tiers (`GiftRuns.ResortKeepsTiersIff`).
- Webhook: a handler that vanishes, an unmark that fails or an insert whose answer is lost leaves an
  event marked for ever (`Webhook.GetsStuckIff`, `Webhook.StuckForever`). A duplicate is answered 200
  while the first delivery may still fail (`Webhook.DuplicateIsAnsweredEarly`); in every run that answer
  is true exactly when nobody is handling the event and none of the three has happened to it
  (`Webhook.DuplicateIsTruthfulIff`, `Webhook.StuckIffStranded`).
- JWK rotator: contracts/jwk-registry/README.md says that it never activates. It does, exactly under
  the condition of `JwkRotator.ActivatedIffPublished`. The instruction names a triple and not the slot
  that was vetted; that makes no difference until the slot can have been freed, its triple proposed
  again and the timelock waited out (`JwkRegistryRuns.ActivationReachesVettedKey`), and at that very
  moment it can (`JwkRegistryRuns.BoundIsExact`), in some run of a new registry for every timelock and
  both graces (`JwkRegistryRuns.BoundIsReached`).
- Users: linking a login provider does not look at the deletion stamp, and a link of a deleted user
  is never released (`UserIndex.LinksStayLiveIff`, `UserIndex.DeadLinkStays`,
  `UserIndex.DeletedThenLinked`).

## Why some hypotheses are needed

The callers in the repository meet these; the lemmas show that the result fails without them.

- `LocalLimiter.CapHolds` asks for a non-empty address. The middleware replaces an empty one. Were
  one passed on, it would stop eviction once oldest (`LocalLimiter.EmptyKeyDefeatsTheCap`).
- `Challenge.AdminPreimagesAgreeIff` asks for extras under 65536 bytes and speaks of the first six. The
  typed operations pass at most two of at most 34 bytes. A longer extra would be ambiguous
  (`Challenge.OverlongExtraIsAmbiguous`), and a seventh would not be signed.

## Other differences between text and code

Noted while modelling; no lemma is about them.

- The comment above the rate-limit middleware says that the local bucket backs up a Redis allow; the
  code does not consult it then. The rate passed to Redis is rounded up to one a second, six times the
  local one.
- The module comment of the challenges counts 17 operations; there are 19 tags besides init.
- The header of the message renderers says that every text fits in 512 bytes. The buffer has 768, which
  is enough for all of them; the text of quorum-contribute can be longer than 512.
- The comment over the refresh handler says the parent is consumed by ConsumeRefreshToken; the code
  calls RotateRefreshToken.

## Model

| member | source | states |
|---|---|---|
| `TokenBucket.RedisLimiter.Eval` | backend/internal/api/ratelimit.go:68-109 | one atomic evaluation of the script: reads the hash Redis still shows, refills by the caller's clock, stores tokens, time stamp and an expiry by Redis's clock on both branches, answers 1 or 0 |
| `TokenBucket.AnswersAreVerdicts` | backend/internal/api/ratelimit.go:68-109 | from a map without the key, and with calls on other keys in between, each call answers 1 exactly when the run of the requests on its own key admits it |
| `TokenBucket.AnswersFitWindows` | backend/internal/api/ratelimit.go:68-109 | so, as long as every request finds its key or a refilled bucket, it answers 1 exactly when the request fits in the window since every earlier request on its key |
| `TokenBucket.TtlIsLeast` | backend/internal/api/ratelimit.go:88-94 | the time to live is the least number of milliseconds that is at least two seconds and at least twice the time of a full refill |
| `TokenBucket.ExpiryInvisible` | backend/internal/api/ratelimit.go:74-94 | over every paced sequence of requests the store that expires keys and the store that never does make the same decisions and hold the same states |
| `TokenBucket.ExpiryInvisibleIff` | backend/internal/api/ratelimit.go:74-94 | for any clocks, they do so for the first n requests if and only if each finds its key unexpired or its bucket refilled |
| `TokenBucket.LostIffFull` | backend/internal/api/ratelimit.go:74-94 | losing one key changes nothing if and only if its bucket was full |
| `TokenBucket.PacedFindsAll` | backend/internal/api/ratelimit.go:88-104 | the time to live is twice the refill time, rounded up, so a key lost at no more than twice the callers' pace has refilled |
| `TokenBucket.PacedLosesNone` | backend/internal/api/ratelimit.go:88-104 | so over every paced sequence each request finds its key or a refilled bucket |
| `TokenBucket.SharedClockIsPaced` | backend/internal/api/ratelimit.go:84-104 | one clock for callers and Redis is paced, however it steps |
| `TokenBucket.OutpacedExpiryRefills` | backend/internal/api/ratelimit.go:88-104 | beyond that pace the window fails even for callers whose clocks stand still |
| `TokenBucket.LevelIsLeastRoom` | backend/internal/api/ratelimit.go:84-93 | as long as every request finds its key or a refilled bucket, the lazily refilled level is the least room left over all windows ending now, and some window attains it |
| `TokenBucket.ExactWindow` | backend/internal/api/ratelimit.go:69-95 | as long as every request finds its key or a refilled bucket, request j is admitted if and only if for every earlier i the requests admitted since i, plus this one, are within burst plus rate times the callers' forward time since i |
| `TokenBucket.AllowanceElapsed` | backend/internal/api/ratelimit.go:84-85 | that time is the plain difference of the request times if and only if the callers' clocks never step back in between |
| `TokenBucket.WindowBound` | backend/internal/api/ratelimit.go:69-95 | as long as every request finds its key or a refilled bucket, no window admits more than burst plus what the rate earned in it |
| `TokenBucket.NeverRefusedIffConforming` | backend/internal/api/ratelimit.go:69-95 | as long as every request finds its key or a refilled bucket, a client is never refused if and only if every window of its requests is inside the burst-plus-rate envelope |
| `TokenBucket.SteppedBackClockRefills` | backend/internal/api/ratelimit.go:84-93 | a clock that steps back refills the bucket: two requests with one time stamp pass at a burst of one |
| `LocalLimiter.AuthRateLimiter.Allow` | backend/internal/api/ratelimit.go:133-146 | makes room by one eviction when a new address meets a full map, creates a full bucket, stamps the hit, and answers by the bucket |
| `LocalLimiter.ExactWindow` | backend/internal/api/ratelimit.go:120-146 | while the bucket of an address is neither evicted nor swept, attempt j is admitted if and only if for every earlier attempt i the attempts admitted since i, plus this one, at six seconds each, are within sixty seconds plus the time since i |
| `LocalLimiter.ExactWindowThroughSweeps` | backend/internal/api/ratelimit.go:120-189 | the same over every history with sweeps, for each address as long as it is not evicted |
| `LocalLimiter.EvictsOnlyWhenFull` | backend/internal/api/ratelimit.go:133-166 | an address loses its bucket in a call only to a new one that meets a full map, one at a time, and only if no other was hit longer ago; all others keep theirs |
| `LocalLimiter.AuthRateLimiter.EvictOldestLocked` | backend/internal/api/ratelimit.go:150-166 | removes a bucket of minimal lastHit and nothing else, except when the oldest key is the empty string |
| `LocalLimiter.AuthRateLimiter.Sweep` | backend/internal/api/ratelimit.go:168-188 | leaves exactly the buckets hit within the last thirty minutes |
| `LocalLimiter.CapHolds` | backend/internal/api/ratelimit.go:137-142 | one call with a non-empty address keeps the map within the cap |
| `LocalLimiter.CapAlwaysHolds` | backend/internal/api/ratelimit.go:133-189 | after any history of calls with non-empty addresses and sweeps the map is within the cap |
| `LocalLimiter.EmptyKeyDefeatsTheCap` | backend/internal/api/ratelimit.go:163-165 | with the empty address oldest, the map outgrows the cap |
| `LocalLimiter.HistoryForgetsOnlyFull` | backend/internal/api/ratelimit.go:120-189 | after any history the swept and the unswept map differ only in buckets that are full again |
| `LocalLimiter.SweepChangesNoVerdict` | backend/internal/api/ratelimit.go:168-188 | deleting idle buckets changes no later decision, for any evictions made alike with and without the sweeps |
| `LocalLimiter.SweptHistoryHasUnsweptTwin` | backend/internal/api/ratelimit.go:133-189 | every history of attempts and sweeps under the cap has a twin under the same cap in which nothing is swept and every attempt gets the same answer |
| `Base64Url.Value` | contracts/oidc-verifier/src/jwt.rs:51-64 | a letter's value is below 64, and every other byte is marked 0xFF |
| `Base64Url.ValueInvertsLetter` | contracts/oidc-verifier/src/jwt.rs:51-64 | a byte has value v if and only if it is the v-th letter of the URL-safe alphabet |
| `Base64Url.OrOfValues` | contracts/oidc-verifier/src/jwt.rs:66-130 | the or of four values is 0xFF if and only if one of them is, so the group test finds exactly the bad letters |
| `Base64Url.DecodeEncode` | contracts/oidc-verifier/src/jwt.rs:66-130 | decoding the unpadded encoding of any byte string (RFC 4648 section 5) gives it back |
| `Base64Url.EncodeDecode` | contracts/oidc-verifier/src/jwt.rs:66-130 | whatever decodes re-encodes to itself, so trailing bits must be zero (RFC 4648 section 3.5) |
| `Base64Url.Canonical` | contracts/oidc-verifier/src/jwt.rs:66-130 | an input decodes to d if and only if it is the canonical encoding of d |
| `Base64Url.EncodedBits` | contracts/oidc-verifier/src/jwt.rs:134-152 | letter by letter, the encoding holds the next six bits of the bytes, the highest first, and zeros where the bytes end (RFC 4648 section 4) |
| `Base64Url.DecodedSize` | contracts/oidc-verifier/src/jwt.rs:66-75 | how long the decoded bytes are, from the length of the input alone |
| `Base64Url.DecodeInto` | contracts/oidc-verifier/src/jwt.rs:66-130 | accepts if and only if the input is non-empty, canonical and fits; writes exactly the decoded bytes and leaves the rest of the buffer alone |
| `Base64Url.Encode32` | contracts/oidc-verifier/src/jwt.rs:134-152 | the loop over 32 bytes writes the 43 letters of the specification encoding; the encoder of contracts/auth/src/lib.rs is the same text |
| `CompactJws.Split` | contracts/oidc-verifier/src/jwt.rs:17-45 | accepts if and only if the input is three non-empty dot-free segments joined by two dots (RFC 7515 sections 3.1 and 7.1), and returns them and the signing input |
| `CompactJws.SplitUnique` | contracts/oidc-verifier/src/jwt.rs:17-45 | an input has one reading, so splitting inverts joining |
| `CompactJws.DotsAreSeparators` | contracts/oidc-verifier/src/jwt.rs:17-45 | in any reading the dots are the two separators and no other byte |
| `MemberSlots.BuiltSlots` | contracts/auth/src/lib.rs:105-130 | a slot is built from at most one scheme and identifier, and from some exactly when its padding is zero |
| `MemberSlots.SlotsAreInjective` | contracts/auth/src/lib.rs:118-130 | distinct credentials never share a slot |
| `MemberSlots.ValidateMemberSlotBase` | contracts/auth/src/lib.rs:135-148 | accepts exactly the slots some base-scheme credential is built into, with the two refusals told apart |
| `MemberSlots.ValidateOidcSlot` | contracts/auth/src/lib.rs:160-171 | accepts exactly the slots some OIDC address seed is built into |
| `WebAuthn.FindSubslice` | contracts/auth/src/lib.rs:304-318 | the offset of the first occurrence, or none if there is none |
| `WebAuthn.OneChallengePerClientData` | contracts/auth/src/lib.rs:249-286 | one clientDataJSON names at most one challenge |
| `WebAuthn.CarriesAt` | contracts/auth/src/lib.rs:269-286 | the three comparisons at the first occurrence of the key hold if and only if the quoted member with the encoded challenge stands there |
| `WebAuthn.VerifyWebAuthn` | contracts/auth/src/lib.rs:242-299 | accepts if and only if the sizes are allowed, the client data carries the challenge and the sysvar vouches for the passkey having signed authenticator data followed by the client data's hash; no index is out of range |
| `Precompile.ReadIxBody` | contracts/auth/src/precompile.rs:136-164 | the body of an instruction, none past the last, or an error for any read past the end |
| `Precompile.FindLongRecord` | contracts/auth/src/precompile.rs:212-275 | both loops of the Ed25519 and Secp256r1 search, with every error where the code raises it and no read out of range |
| `Precompile.FindShortRecord` | contracts/auth/src/precompile.rs:277-344 | the same for the Secp256k1 layout |
| `Precompile.VouchedIff` | contracts/auth/src/precompile.rs:136-344 | over any bytes: accepted if and only if a record of this key and message that refers to its own instruction throughout is met before anything unsound; a refusal names the first unsound thing |
| `SysvarWriter.FieldsReadBack` | contracts/auth/src/precompile.rs:8-30 | records written field by field in the order of the two layouts, any number of them, are read back field by field |
| `SysvarWriter.RecordReadsBack` | contracts/auth/src/precompile.rs:246-275 | what a written record vouches for: the bytes at the places written in it, or the error of an index that points elsewhere or of a place past the end |
| `SysvarWriter.BodiesReadBack` | contracts/auth/src/precompile.rs:136-164 | every instruction of a written sysvar is read back, its accounts skipped |
| `SysvarWriter.InvocationIsFound` | contracts/auth/src/precompile.rs:212-344 | a sysvar with one ordinary, self-contained record of the program, among instructions of others, is accepted if and only if the wanted key and message are the ones laid down in it, for both layouts |
| `WebAuthn.VerifySignature` | contracts/auth/src/lib.rs:193-240 | what each scheme requires of the sysvar bytes, and that every other scheme is refused |
| `Signatures.SlotLayout` | contracts/auth/src/lib.rs:105-130 | which scheme and identifier lengths have a slot, and where scheme, identifier and zero padding stand in it |
| `Signatures.SignedExactlyBy` | contracts/auth/src/lib.rs:193-299 | in a transaction that invokes the program of the scheme once, the slot built from a credential counts as having signed if and only if that invocation is about its own identifier and about the challenge; for a passkey about the authenticator data and the hash of client data of the right size that names the challenge |
| `Signatures.OidcNeverSigns` | contracts/auth/src/lib.rs:193-240 | a slot of an OIDC identity never does |
| `WebAuthn.PayloadAuthorisesOneChallenge` | contracts/auth/src/lib.rs:193-299 | no two challenges are authorised by one WebAuthn payload, whatever the transactions hold |
| `Challenge.UniquelyDecodable` | contracts/auth/src/challenge.rs:46-1170 | any two challenge calls with equal preimages are the same operation with the same text and the same parameters |
| `Challenge.InitOffsets` | contracts/auth/src/challenge.rs:114-150 | the offset of every field in the 150 bytes hashed for an init |
| `Challenge.OidcSessionOpenOffsets` | contracts/auth/src/challenge.rs:904-933 | the offset of every field of an OIDC session opening, behind domain, tag, length and text |
| `Challenge.OidcPrimaryUseOffsets` | contracts/auth/src/challenge.rs:981-1014 | the offset of every field of a use of an OIDC session |
| `Challenge.AdminOffsets` | contracts/auth/src/challenge.rs:533-863 | the offset of every shared field of an admin operation, and the bytes of its own parameters behind them |
| `Bytes.Le64Bytes` | contracts/auth/src/challenge.rs:744-746 | a 64-bit number is written least significant byte first, a negative one as its two's complement |
| `Challenge.TagReadsBack` | contracts/auth/src/challenge.rs:53-86 | the v2 tags form a prefix-free code: the operation is read back from the bytes after the domain |
| `Challenge.FieldsDetermine` | contracts/auth/src/challenge.rs:114-1170 | the parameters of one operation are read back from the fields it hashes |
| `Challenge.AdminHashWithHuman` | contracts/auth/src/challenge.rs:533-569 | the two loops over fixed arrays hash domain, tag, length-prefixed text, fixed fields and the first six extras, each behind its length |
| `Challenge.AdminCallParts` | contracts/auth/src/challenge.rs:572-860 | each typed admin operation hashes those parts of its own parameters |
| `Challenge.ExtrasReadBack` | contracts/auth/src/challenge.rs:544-568 | the length prefixes delimit the extras to the end of the input |
| `Challenge.AdminPreimagesAgreeIff` | contracts/auth/src/challenge.rs:533-569 | two admin preimages agree if and only if operation, text, fixed parameters and the first six extras agree |
| `Challenge.OverlongExtraIsAmbiguous` | contracts/auth/src/challenge.rs:544-556 | an extra of 65536 bytes reads as three other extras |
| `Numerals.DecimalDetermines` | contracts/auth/src/human_message.rs:135-149 | two numbers with the same decimal text are equal |
| `Numerals.DecimalReads` | contracts/auth/src/human_message.rs:135-149 | decimal text is made of the ten digits and is worth the number, read from the highest digit |
| `Numerals.HexDetermines` | contracts/auth/src/human_message.rs:210-221 | two byte strings with the same hexadecimal text are equal |
| `Numerals.HexReads` | contracts/auth/src/human_message.rs:210-221 | digits 2i and 2i + 1 are the upper and the lower four bits of byte i, in lower case |
| `Numerals.Base58Determines` | contracts/auth/src/human_message.rs:260-310 | two byte strings of one length with the same base58 text are equal |
| `Numerals.Base58Reads` | contracts/auth/src/human_message.rs:260-310 | base58 text is a 1 for each leading zero byte and then letters of the alphabet worth the bytes read as one number, without leading zeros |
| `Numerals.Base58Fits` | contracts/auth/src/human_message.rs:267-299 | the base58 text of any thirty-two bytes has at most forty-four letters, so neither guard against more ever fires |
| `Numerals.EncodeBase58` | contracts/auth/src/human_message.rs:260-310 | the nested loops over an array of forty-four digits compute the base58 text: a 1 for each leading zero byte and the number's digits to the base 58 |
| `MessageWriter.MsgWriter.WriteU64Dec` | contracts/auth/src/human_message.rs:135-149 | appends the decimal text if it fits, from an array of twenty digits filled backwards, else fails and keeps what was there |
| `MessageWriter.MsgWriter.WriteI64Dec` | contracts/auth/src/human_message.rs:151-160 | the same with the sign, down to the least i64 |
| `MessageWriter.MsgWriter.WriteHexLower` | contracts/auth/src/human_message.rs:210-221 | appends two digits a byte if all of them fit, else fails |
| `MessageWriter.MsgWriter.WriteMemberSlot` | contracts/auth/src/human_message.rs:233-246 | appends scheme and identifier, or fails for an unknown scheme before writing anything |
| `MessageWriter.Render` | contracts/auth/src/human_message.rs:489-935 | each message function of these operations renders the whole text, or reports a slot with an unknown scheme; it never runs out of buffer |
| `ClearSigning.MessageFits` | contracts/auth/src/human_message.rs:22-32 | for every operation the longest possible text fits the 768 bytes |
| `ClearSigning.OperationReadsBack` | contracts/auth/src/human_message.rs:489-935 | the operation is read from the first characters of its text |
| `ClearSigning.ReadsBack` | contracts/auth/src/human_message.rs:489-935 | with the same literals, texts are equal if and only if the values they show are |
| `ClearSigning.TextTellsIff` | contracts/auth/src/human_message.rs:489-935 | over all nineteen operations, two challenges have the same text if and only if they are the same operation and show the same values |
| `MessageTexts.OidcSessionOpenText` | contracts/auth/src/human_message.rs:855-869 | the text of an OIDC session opening, word by word |
| `MessageTexts.OidcPrimaryUseText` | contracts/auth/src/human_message.rs:871-894 | the text of a use of an OIDC session, word by word |
| `MessageTexts.AdminText` | contracts/auth/src/human_message.rs:662-851 | the text of each of the twelve admin operations, word by word, and that only a member of an unknown scheme has none |
| `GatewayChallenges.HumanMessagePrimaryRecover` | gateway/internal/policy/challenges_recovery.go:88-105 | the gateway's text is the on-chain program's, write for write |
| `GatewayChallenges.PrimaryRecoverPreimage` | gateway/internal/policy/challenges_recovery.go:127-155 | the buffer the gateway writes is the on-chain preimage of primary-recover with the fields of the input and the text rendered from them, never an error |
| `GatewayChallenges.HumanMessageQuorumSessionOpen` | gateway/internal/policy/challenges_recovery.go:183-206 | the gateway's text is the on-chain program's, write for write |
| `GatewayChallenges.QuorumSessionOpenPreimage` | gateway/internal/policy/challenges_recovery.go:224-259 | the buffer the gateway writes is the on-chain preimage of quorum-session-open with the fields of the input and the text rendered from them, never an error |
| `GatewayChallenges.HumanMessageQuorumContribute` | gateway/internal/policy/challenges_recovery.go:274-309 | the gateway's text is the on-chain program's, or the same error for a slot with an unknown scheme |
| `GatewayChallenges.QuorumContributePreimage` | gateway/internal/policy/challenges_recovery.go:328-365 | the buffer the gateway writes is the on-chain preimage of quorum-contribute with the fields of the input and the text rendered from them; an error if and only if the scheme in the member slot is unknown |
| `GatewayChallenges.HumanMessagePasskeySessionOpen` | gateway/internal/policy/challenges_recovery.go:380-393 | the gateway's text is the on-chain program's, write for write |
| `GatewayChallenges.PasskeySessionOpenPreimage` | gateway/internal/policy/challenges_recovery.go:407-430 | the buffer the gateway writes is the on-chain preimage of passkey-session-open with the fields of the input and the text rendered from them, never an error |
| `GatewayChallenges.HumanMessagePasskeyPrimaryUse` | gateway/internal/policy/challenges_recovery.go:443-462 | the gateway's text is the on-chain program's, write for write |
| `GatewayChallenges.PasskeyPrimaryUsePreimage` | gateway/internal/policy/challenges_recovery.go:479-508 | the buffer the gateway writes is the on-chain preimage of passkey-primary-use with the fields of the input and the text rendered from them, never an error |
| `GatewayChallenges.OldAdminMirrorNeverMatches` | gateway/internal/auth/challenges_recovery.go:87-98 | no admin preimage of this file is one that any on-chain challenge function hashes |
| `OwnerAdmin.VerifyOwnerAdmin` | contracts/auth/src/admin.rs:29-53 | the gate in the order of the code: stale nonce, WebAuthn owner, signature, exhausted nonce, else the next nonce |
| `OwnerAdmin.NonceCountsAccepted` | contracts/auth/src/admin.rs:29-53 | over any run the stored nonce is the first one plus the number of accepted operations, so it never wraps |
| `OwnerAdmin.NeverAcceptedTwice` | contracts/auth/src/admin.rs:29-53 | after an accepted operation every later attempt faces a larger nonce and a different challenge preimage |
| `OwnerAdmin.ExhaustedNonceRefuses` | contracts/auth/src/admin.rs:46-52 | at the largest nonce everything is refused from then on |
| `RefreshTokens.MemoryStore.CreateRefreshToken` | backend/internal/store/memory.go:363-379 | adds one live row and its hash |
| `RefreshTokens.MemoryStore.RotateRefreshToken` | backend/internal/store/memory.go:381-404 | succeeds exactly on a live parent, which is then revoked and linked to the one new row |
| `RefreshTokens.MemoryStore.GetRefreshTokenByHash` | backend/internal/store/memory.go:406-419 | the row under a hash, if any |
| `RefreshTokens.MemoryStore.RevokeRefreshTokensByUser` | backend/internal/store/memory.go:437-448 | the loop stamps exactly the live rows of the user |
| `RefreshTokens.MemoryStore.RevokeRefreshTokenFamily` | backend/internal/store/memory.go:450-469 | the unbounded walk ends, and has then stamped exactly the live rows reachable from the start |
| `RefreshTokens.RevokedFamilyRows` | backend/internal/store/memory.go:450-469 | row by row: a live row that a path of replacements leads to is stamped, and every other row stays as it was |
| `RefreshTokens.CteComputesFamily` | backend/internal/store/auth_pg.go:267-285 | the recursive query ends after at most as many rounds as there are rows, and collects exactly the rows the loop walks over |
| `RefreshTokens.InsertKeepsLinks` | backend/internal/store/memory.go:363-379 | keeps links acyclic, resolvable and single-parent |
| `RefreshTokens.RotateKeepsLinks` | backend/internal/store/memory.go:381-404 | keeps links acyclic, resolvable and single-parent |
| `RefreshTokens.RevokeKeepsLinks` | backend/internal/store/memory.go:437-469 | keeps links acyclic, resolvable and single-parent |
| `RefreshTokens.RevokedFamilyIsDead` | backend/internal/store/memory.go:450-469 | after the walk no token of the family is live, and the family is the same |
| `RefreshTokens.DeadFamilyIsFrozen` | backend/internal/store/memory.go:381-404 | a family without a live token neither grows nor comes back, however the table evolves |
| `RefreshTokens.FamilyHasTail` | backend/internal/store/memory.go:381-404 | every token's chain ends in a token that was not replaced |
| `RefreshTokens.SnapshotRevocationIff` | backend/internal/store/auth_pg.go:267-285 | revoking the chain of an older snapshot leaves the family dead if and only if the snapshot's last token was not rotated since, or all that was issued in its place is dead |
| `RefreshTokens.RotationOutrunsSnapshot` | backend/internal/store/auth_pg.go:176-213 | a rotation between snapshot and update leaves a live child in the family |
| `RefreshSessions.HandleRefresh` | backend/internal/api/auth_session.go:145-177 | the handler from its snapshot on: reuse revokes the family, expired and ownerless tokens are refused, otherwise it rotates or fails |
| `RefreshSessions.RotatesIff` | backend/internal/api/auth_session.go:145-178 | acting on a refresh adds its child if and only if the snapshot was not revoked, the clock is not past its expiry, the user exists and the token is still live |
| `RefreshSessions.SuccessorOnlyBeforeExpiry` | backend/internal/api/auth_session.go:145-178 | in every run, a token gets a successor only from a refresh that read it, while it was live, for an existing user and no later than its expiry |
| `RefreshSessions.ExpiredIsNeverRotated` | backend/internal/api/auth_session.go:163-166 | a token without a successor when its time is up never gets one, in any run |
| `RefreshSessions.StepKeepsInv` | backend/internal/api/auth_session.go:47-200 | every step of every interleaving keeps links in order, one owner per chain, and snapshots that are only ever behind on a revocation |
| `RefreshSessions.ReachableChains` | backend/internal/api/auth_session.go:47-200 | in every reachable state links are acyclic, a token has one parent, only a chain's tail can be live, and a chain has one user |
| `RefreshSessions.RevokedFamilyStaysDead` | backend/internal/api/auth_session.go:150-164 | once reuse is detected the family keeps its members and none is live in any later state |
| `RefreshSessions.RotatedOnce` | backend/internal/api/auth_session.go:138-178 | a token is rotated at most once in any run, and its successor never changes |
| `RefreshSessions.LogoutIsPermanent` | backend/internal/api/auth_session.go:186-200 | every token the user holds at sign-out is dead in every later state |
| `RefreshSessions.RunIssues` | backend/internal/store/auth_pg.go:252-263 | over any run a user's tokens are exactly those the user had and those logins and rotations issued in it, which are new |
| `RefreshSessions.LogoutSpares` | backend/internal/store/auth_pg.go:252-263 | whatever runs between the snapshot of the statement and its update, the user's live tokens afterwards are exactly those issued in between and still live |
| `RefreshSessions.RotationOutlivesLogout` | backend/internal/store/auth_pg.go:252-263 | one rotation in between leaves exactly its child alive |
| `Pricing.PricingStore.CreatePricingChange` | backend/internal/store/admin_economy.go:460-512 | the refusals in order, the thirty-day floor, and the one row inserted with the live value as old value |
| `Pricing.PricingStore.CancelPricingChange` | backend/internal/store/admin_economy.go:582-603 | cancels exactly a pending row, and tells a missing row from a finished one |
| `PricingRuns.CancelStamps` | backend/internal/store/admin_economy.go:582-603 | a cancellation stamps a row that is neither applied nor cancelled, and moves nothing else |
| `PricingRuns.CancelledIsNeverApplied` | backend/internal/store/admin_economy.go:582-603 | in every run, with any workers, a change cancelled while pending keeps its stamp, is never applied, and no later write of a live value is on its account |
| `Pricing.PricingStore.ApplyOnePricingChange` | backend/internal/store/notifications.go:276-345 | writes the live value and stamps the row, or, after a rollback, changes nothing |
| `Pricing.PricingStore.ListDue` | backend/internal/store/notifications.go:235-260 | lists exactly the pending rows that are due, once each, ordered by (effectiveAt, id) |
| `Pricing.PricingStore.ApplyPendingPricingChanges` | backend/internal/store/notifications.go:234-274 | applies the list item by item, each in its own transaction |
| `PricingRuns.StepKeepsInv` | backend/internal/store/notifications.go:234-331 | every step keeps: no pending change is earlier than an applied one of its key, lists are in order, the live value is the latest applied |
| `PricingRuns.LiveValuesFollowTheSchedule` | backend/internal/store/notifications.go:234-331 | after every run with any number of workers, crashes and slow creations, the live value is that of the applied row greatest in (effectiveAt, id), others are untouched, and no row is both applied and cancelled |
| `PricingRuns.AppliedKeyHasLatest` | backend/internal/store/notifications.go:240-243 | a key with an applied row has such a greatest row |
| `PricingRuns.KeepsLiveIffInOrder` | backend/internal/store/notifications.go:276-331 | applying a row keeps the live value right if and only if the row is later than all applied ones of its key or has the latest one's value |
| `PricingRuns.LostTransactionReorders` | backend/internal/store/notifications.go:262-271 | a run with one lost transaction ends with an older value live |
| `PricingRuns.TickIsRun` | backend/internal/store/notifications.go:262-271 | the worker's loop is a run of the machine |
| `PricingRuns.TickSettles` | backend/internal/store/notifications.go:234-274 | an undisturbed tick leaves nothing due that can still be applied |
| `PricingRuns.AcceptedIsReadyIff` | backend/internal/store/admin_economy.go:460-512 | an accepted change can be applied if and only if its column takes the value and, for a plan column, the plan exists |
| `PricingRuns.AcceptedButNeverApplied` | backend/internal/store/notifications.go:283-323 | otherwise it is applied in no run, with any workers and any failures |
| `PricingRuns.ZeroRouteCostIsAccepted` | backend/internal/store/admin_economy.go:474-483 | a route cost of zero is accepted and is such a change |
| `PricingRuns.DueIsAppliedIff` | backend/internal/store/notifications.go:234-331 | an undisturbed tick applies a due change if and only if it can be applied |
| `Overage.PendingDelta` | backend/internal/store/billing.go:99-105 | zero when reported is ahead, otherwise what brings reported up to used |
| `Overage.Billing.ListSubscriptionsForOverageReport` | backend/internal/store/billing_pg.go:372-401 | each reportable subscription with used above reported, once, as it stands |
| `Overage.Billing.ReportOverage` | backend/internal/billing/overage.go:88-112 | adds the key to what Stripe acknowledged unless Stripe refuses, and tells the worker only what it sees |
| `Overage.Billing.AdvanceOverageReported` | backend/internal/store/billing_pg.go:353-370 | adds a positive delta to one counter, or does nothing |
| `Overage.Billing.Tick` | backend/internal/notifications/overage_worker.go:65-126 | one pass over the targets: skip, report under the deterministic key, advance only after the acknowledgement, and count |
| `Overage.PassOnSubs` | backend/internal/notifications/overage_worker.go:65-126 | a pass brings a listed counter up to its usage exactly when the report was acknowledged and the update went through, and leaves every other subscription alone |
| `Overage.PassOnKeys` | backend/internal/notifications/overage_worker.go:65-126 | a pass teaches Stripe exactly the difference of each listed subscription with a customer that Stripe did not refuse |
| `Overage.PassCounts` | backend/internal/notifications/overage_worker.go:65-126 | the two numbers the worker logs count the listed subscriptions with a customer that were recorded, and those that were not |
| `OverageRuns.StepKeepsInv` | backend/internal/notifications/overage_worker.go:79-123 | every step keeps: reported is the sum of the recorded keys, recorded keys were acknowledged, and the worker's snapshot of reported is current |
| `OverageRuns.BilledIsReportedPlusOrphans` | backend/internal/notifications/overage_worker.go:79-123 | after every run, however usage moves, tokens billed equal tokens reported plus those of acknowledged keys never recorded |
| `OverageRuns.ReportedWithinUsed` | backend/internal/notifications/overage_worker.go:79-123 | while the counter only grows, reported never exceeds used |
| `OverageRuns.KnownIffWaits` | backend/internal/notifications/overage_worker.go:88-114 | a step keeps every outstanding key one that the next tick would send again if and only if usage waits for the retry |
| `OverageRuns.BilledIsReportedOrUsed` | backend/internal/notifications/overage_worker.go:88-114 | over every run in which usage waits, billed is reported or used |
| `OverageRuns.CleanReportIsExactIff` | backend/internal/notifications/overage_worker.go:96-123 | after an acknowledged and recorded report billed equals reported if and only if no other key was outstanding |
| `OverageRuns.CleanTick` | backend/internal/notifications/overage_worker.go:79-123 | a tick without failures makes billed, reported and used equal for every subscription it reports |
| `OverageRuns.MovedCounterIsBilledTwice` | backend/internal/notifications/overage_worker.go:88-123 | usage that moves between a failed advance and its retry is billed twice by exactly the failed delta |
| `OverageRuns.TenAreBilledTwice` | backend/internal/notifications/overage_worker.go:88-123 | a run from the empty state in which twenty-seven tokens are billed for seventeen used |
| `OverageRuns.CleanTickRecords` | backend/internal/notifications/overage_worker.go:79-123 | whatever is outstanding, a tick without failures brings reported up to used for every subscription it reports |
| `OverageRuns.RolloverIsUnderreported` | gateway/internal/store/consume.go:115-121 | from any reachable state, within a tick or not: after a rollover, any run in which counters grow and a clean tick, reported is the larger of f and the tokens used since, where f is what was recorded once the tick in progress was done with the subscription; so all tokens used since were reported if and only if f or they are zero |
| `OverageRuns.FloorIsEither` | backend/internal/notifications/overage_worker.go:79-123 | that f is what was recorded at the rollover or what the tick had listed as used |
| `OverageRuns.RolloverLosesSeven` | gateway/internal/store/consume.go:115-121 | a run in which ten tokens were reported, seven are used after a rollover and none of them is ever listed |
| `Gifts.GiftStore.AssignPlan` | backend/internal/store/billing_pg.go:101-176 | refuses a missing or inactive plan, else cancels the user's active subscriptions and opens one |
| `Gifts.GiftStore.ApplyGiftCard` | backend/internal/store/customer.go:327-509 | the refusals in order, then created, upgraded or extended with the limits and caps of each, and the card redeemed |
| `Gifts.GiftStore.RefundGiftCard` | backend/internal/store/admin_economy.go:338-380 | refunds exactly a paid, unused card at most seven days old |
| `GiftRuns.StepKeepsInv` | backend/internal/store/customer.go:327-509 | every step keeps one active subscription a user, all accounts and one use per card |
| `GiftRuns.SubscriptionsAddUp` | backend/internal/store/customer.go:408-484 | after every run a subscription's limit is its opening month plus monthly * months of the cards absorbed later and its cap counts opening and upgrades; its tier is the highest it was given as long as no sort order is edited |
| `GiftRuns.ResortKeepsTiersIff` | backend/internal/store/admin_economy.go:132-140 | editing a sort order keeps that if and only if it changes nothing or no subscription is on the plan |
| `GiftRuns.AtMostOneActive` | backend/internal/store/billing_pg.go:133-161 | after every run a user has at most one active subscription |
| `GiftRuns.CardsAreGivenOnce` | backend/internal/store/customer.go:486-494 | a card was granted once if it is redeemed and never otherwise, and never if it is refunded |
| `GiftRuns.SpentStaysSpent` | backend/internal/store/admin_economy.go:358-375 | a redeemed or refunded card stays as it is in every later state |
| `GiftRuns.AnnouncedTokensAreAddedIff` | backend/internal/store/customer.go:391-504 | the announced tokens are the tokens added if and only if the user has an active subscription, the card lasts one month, or its plan carries no tokens |
| `Webhook.Server.MarkStripeEventProcessed` | backend/internal/store/billing_pg.go:434-447 | inserts if absent and says whether it was first |
| `Webhook.Server.UnmarkStripeEventProcessed` | backend/internal/store/billing_pg.go:449-455 | removes the mark, or fails |
| `Webhook.Server.HandleStripeWebhook` | backend/internal/api/billing.go:265-284 | mark, handle, unmark on failure, with the answer of each path |
| `Webhook.AloneIsDeliver` | backend/internal/api/billing.go:265-284 | that handler is one way through the interleaved machine |
| `Webhook.StepKeepsInv` | backend/internal/api/billing.go:265-284 | every step keeps: one holder per event, holders' events marked and not succeeded, successes distinct |
| `Webhook.HandlersExclude` | backend/internal/api/billing.go:265-284 | in every run two deliveries of one event never handle it at the same time, nor after a success |
| `Webhook.SucceedsOnce` | backend/internal/api/billing.go:265-284 | an event succeeds at most once in any run |
| `Webhook.GetsStuckIff` | backend/internal/api/billing.go:265-284 | a step strands an event if and only if its handler vanishes, its unmark fails or the answer to its insert is lost |
| `Webhook.StuckIffStranded` | backend/internal/api/billing.go:265-284 | over any run, an event ends stranded if and only if it was so at the start or such a step occurred |
| `Webhook.StuckForever` | backend/internal/api/billing.go:265-284 | a stranded event is never handled again |
| `Webhook.FreeUnlessMarked` | backend/internal/api/billing.go:265-273 | in every run, a delivery gets to handle an event if and only if no delivery is handling it, no step has stranded it and it has not succeeded |
| `Webhook.DuplicateIsAnsweredEarly` | backend/internal/api/billing.go:270-284 | a duplicate is told 200 although the event then ends unhandled |
| `Webhook.DuplicateIsTruthfulIff` | backend/internal/api/billing.go:270-273 | in every run, a duplicate's 200 is true, the event was handled, if and only if nobody is handling it and no step has stranded it |
| `JwkRotator.NormalizeModulus` | jwk-rotator/src/index.ts:210-223 | non-null if and only if at most 257 bytes denote an odd integer in [2^2047, 2^2048), and then its 256 big-endian bytes |
| `JwkRotator.NormalizedKeepsValue` | jwk-rotator/src/index.ts:210-223 | the result denotes the same integer and is the input itself or the input without one leading zero, so padding never yields a key |
| `JwkRotator.TopAndLowBit` | jwk-rotator/src/index.ts:220-221 | on 256 bytes the bit test is exactly oddness and 2048-bit size of the denoted integer |
| `JwkRotator.FetchProviderKeys` | jwk-rotator/src/index.ts:253-291 | keeps exactly the RS256 signing keys with a vetted modulus and exponent 65537, or fails whole on an empty exponent |
| `JwkRotator.GatherKeys` | jwk-rotator/src/index.ts:456-467 | the keys of the enabled providers that answered, in order |
| `JwkRotator.GatheredIff` | jwk-rotator/src/index.ts:253-467 | a pass gathers a key if and only if it is a signing key of exponent 65537, under the hashes of issuer, audience and key id, of an enabled provider that answered and whose answer does not fail the fetch |
| `JwkRotator.ActivatePending` | jwk-rotator/src/index.ts:515-565 | sends exactly the pending, ripe entries whose first matching provider publishes that very key, reports exactly the ripe ones it does not, each once and in slot order |
| `JwkRotator.ActivatedIffPublished` | jwk-rotator/src/index.ts:515-565 | with distinguishable providers a ripe entry is activated if and only if its triple and modulus are published right now |
| `JwkRotator.ActivatedIsVetted` | jwk-rotator/src/index.ts:515-565 | an activated entry holds an odd 2048-bit modulus that an enabled provider of its issuer and audience published under its key id |
| `JwkRotator.RipeIsSettledIff` | jwk-rotator/src/index.ts:515-565 | a ripe entry is activated or reported, never both, if and only if some provider of its issuer and audience answered with a key |
| `JwkRegistry.Find` | contracts/jwk-registry/src/lib.rs:648-662 | the first slot of a triple with a wanted status, or none if there is none |
| `JwkRegistry.Account.FindSlot` | contracts/jwk-registry/src/lib.rs:648-662 | the loop finds that slot |
| `JwkRegistry.Account.FindWritableSlot` | contracts/jwk-registry/src/lib.rs:687-721 | one pass prefers the first empty slot, then the first expired one, then the first revoked one past its grace, and tells a full registry from a blocked one |
| `JwkRegistry.Account.ProposeJwk` | contracts/jwk-registry/src/lib.rs:891-950 | the refusals in order, then one pending entry in a writable slot |
| `JwkRegistry.Account.ActivateJwk` | contracts/jwk-registry/src/lib.rs:953-1001 | activates the pending entry of a triple once its timelock is over |
| `JwkRegistry.Account.BootstrapJwk` | contracts/jwk-registry/src/lib.rs:1004-1043 | the first key of an empty registry, active at once |
| `JwkRegistry.Account.RevokeJwk` | contracts/jwk-registry/src/lib.rs:1125-1153 | revokes the pending or active entry of a triple |
| `JwkRegistry.Account.ExpireJwk` | contracts/jwk-registry/src/lib.rs:1174-1196 | expires an active entry past validity and grace |
| `JwkRegistryRuns.StepKeepsInv` | contracts/jwk-registry/src/lib.rs:881-1196 | every instruction keeps triples distinct, the count right, every modulus in profile and every active key past its timelock or bootstrapped |
| `JwkRegistryRuns.ReachableIsSound` | contracts/jwk-registry/src/lib.rs:881-1196 | so it is in every state a new registry can reach |
| `JwkRegistryRuns.NoActivationBeforeTimelock` | contracts/jwk-registry/src/lib.rs:953-1001 | whoever signs what, a key active at the end of a run was there at its start, or was bootstrapped, or a whole timelock has passed |
| `JwkRegistryRuns.RevokedStaysForGrace` | contracts/jwk-registry/src/lib.rs:687-721 | for the grace period after a revocation the slot does not change and its triple is nowhere else |
| `JwkRegistryRuns.ActivationReachesVettedKey` | jwk-rotator/src/index.ts:360-393 | an activation that lands within the timelock plus the time it takes to free a slot, after the watcher's read, activates the very modulus that was read, whatever happened in between |
| `JwkRegistryRuns.BoundIsExact` | contracts/jwk-registry/src/lib.rs:891-1196 | at that very moment, from any full registry whose second slot is about to be free, a run exists that activates any other key under the same triple, for every configuration |
| `JwkRegistryRuns.ReachesNearlyFull` | contracts/jwk-registry/src/lib.rs:891-1196 | for every timelock and both graces a run of a new registry reaches such a state |
| `JwkRegistryRuns.BoundIsReached` | contracts/jwk-registry/src/lib.rs:891-1196 | so for every configuration and any two keys a run of a new registry leads to a ripe pending key, and a further run, exactly as long as the bound, to activating the other key under its triple |
| `JwkRegistryRuns.ActivatedKeysWerePublished` | jwk-rotator/src/index.ts:515-565 | so the key it makes active was being published by an enabled provider of its issuer and audience during the pass |
| `JwkRotator.ComputeValidUntil` | jwk-rotator/src/index.ts:634-648 | never more than thirty days ahead, in the future exactly when TTL plus grace is positive, capped exactly when they exceed the limit |
| `UserIndex.ProviderKeysDiffer` | backend/internal/store/memory.go:106-107 | joined provider keys tell all pairs apart |
| `UserIndex.MemoryStore.CreateUser` | backend/internal/store/memory.go:64-74 | refuses a taken email, else stores and indexes the user |
| `UserIndex.MemoryStore.GetUserByID` | backend/internal/store/memory.go:76-85 | finds exactly live users |
| `UserIndex.MemoryStore.GetUserByEmail` | backend/internal/store/memory.go:87-100 | finds exactly the live user the index names, and never meets a missing row |
| `UserIndex.MemoryStore.GetUserByProvider` | backend/internal/store/memory.go:102-116 | finds exactly the live user the link names, and never meets a missing row |
| `UserIndex.MemoryStore.LinkProvider` | backend/internal/store/memory.go:118-133 | links a stored user, idempotently, and never takes a link from another user |
| `UserIndex.MemoryStore.UpdateUser` | backend/internal/store/memory.go:135-146 | replaces exactly the row of a live user |
| `UserIndex.MemoryStore.SoftDeleteUser` | backend/internal/store/memory.go:164-201 | the two loops drop exactly the user's links and revoke exactly its live keys; the email is released and the row erased |
| `UserIndex.MemoryStore.RevokeAPIKey` | backend/internal/store/memory.go:249-259 | stamps exactly a key of that user |
| `UserIndex.StepKeepsInv` | backend/internal/store/memory.go:64-201 | every call keeps the email index exactly the live users by email and every link resolvable |
| `UserIndex.EmailsAreABijection` | backend/internal/store/memory.go:64-201 | after every run an id is live under an email if and only if the index maps that email to it |
| `UserIndex.LinksResolve` | backend/internal/store/memory.go:118-133 | after every run every provider link names a stored user |
| `UserIndex.DeletionFrees` | backend/internal/store/memory.go:164-201 | deletion frees the email for a new sign-up, removes all and only the user's links, and leaves none of its keys live |
| `UserIndex.DeletionIsForGood` | backend/internal/store/memory.go:164-201 | a deleted user is never found by email again, and the keys it had stay revoked |
| `UserIndex.RevokedForGood` | backend/internal/store/memory.go:249-259 | a revoked key is revoked in every later state |
| `UserIndex.LinksStayLiveIff` | backend/internal/store/memory.go:118-133 | links keep going to live users if and only if no deleted user is linked |
| `UserIndex.DeadLinkStays` | backend/internal/store/memory.go:118-133 | a link of a deleted user is never released |
| `UserIndex.DeletedThenLinked` | backend/internal/store/memory.go:118-133 | sign-up, deletion and linking lead from the empty store to such a link |

## Left out

- Token bucket: floating-point rounding and number formatting of Redis, since counts are kept in thousandths of a token; rate is at least 1, which the caller's rounding ensures.
- `TokenBucket.ExactWindow`: asks that every request finds its key or a refilled bucket, because otherwise it is false, as `TokenBucket.OutpacedExpiryRefills` shows.
- `LocalLimiter.AuthRateLimiter.Allow`: is one step, although the code releases the lock before it asks the limiter of the address; rate.Limiter is modelled by integer nanosecond units.
- Hashing: SHA-256 is any function, so statements are about preimages and not about collisions; `Challenge.dfy` takes any text of at most 768 bytes.
- `ClearSigning.TextTellsIff`: speaks of what a text shows, which leaves out the nonces, bumps and slots that only the preimage binds, the padding of a slot and which byte stands for a present limit.
- `MessageWriter.Render`: carries out a message function's writes from a list; the check that the literals are ASCII is left out, and so are the messages of the policy engine and the TypeScript mirror.
- Precompiles of the chain: that a record in the sysvar means a verified signature is the runtime's promise; the check of the sysvar's own address.
- `Challenge.UniquelyDecodable`: covers the on-chain functions; the vector generator's own admin hash is not part of this model.
- ConsumeRefreshToken: takes any replacement id, with which a cycle is possible, and has no caller in the API.
- Refresh tokens: new ids and hashes are fresh; newMemoryID derives ids from the time, which does not guarantee it. Issue times, user agents and addresses are not kept.
- `RefreshSessions.StepKeepsInv`: store calls are atomic steps as under the in-memory lock; of the SQL statements the two revocations are also modelled with their snapshot apart from their update.
- Pricing: direct edits by admins through UpdatePlan and UpsertRequestCost, and changes of the set of plans; the clocks of process and database are one, and a creation commits within thirty days of its clock reading.
- `PricingRuns.LiveValuesFollowTheSchedule`: excludes transactions lost for reasons of their own, because the property is false with them, as `PricingRuns.LostTransactionReorders` shows.
- Overage: leader election is not modelled and one worker is assumed; Stripe remembers keys for ever, although it promises a day; subscriptions are not deleted while they are followed.
- `OverageRuns.BilledIsReportedOrUsed`: asks that usage waits for the retry, because the unconditional statement is false, as `OverageRuns.MovedCounterIsBilledTwice` shows.
- `GiftRuns.SubscriptionsAddUp`: states the tier only while no sort order is edited, because with an edit it is false, as `GiftRuns.ResortKeepsTiersIff` shows.
- Gifts: period ends and month arithmetic, rate limits copied from plans, and 64-bit overflow of monthly * months; the gateway's rollover, which resets limits, and Stripe status updates, which may set any row active, are not steps of these runs.
- Webhook: what handling an event does, and signature checking.
- JWK rotator: base64 decoding by Node, which is lenient; proposing, bootstrapping and alerts; a sent activation may fail on chain.
- JWK registry: role rotation, account creation and events; the byte layout of a slot; signers are one flag per instruction.
- Gateway challenges: the base58 text of the Solana library and the numbers of strconv are taken to be those of `Numerals.dfy`; the challenges of the policy engine, which are others.
- `UserIndex.MemoryStore.UpdateUser`: in runs the mutation keeps email and deletion stamp; other mutations are covered for the single call only.
- Users: OAuth redirects, lockout counters, password resets, key listing and editing; new user and key ids are fresh.
- HTTP, JSON, cookies, SMTP, configuration, dashboards, the gateway's quota ledger, intents and the policy engine.
