# A verified model of the Imajin platform's protocol code

This project models, in Dafny, the parts of the Imajin repository whose correctness is not
visible from reading one function: the key codec, the canonical JSON that is signed and
hashed, the WebSocket presence server, the rate limiter, the predicate-claim cache, the
consent broker, the event bus, and the intro funnel.

| files | what they model |
|---|---|
| `Radix`, `KeyEncoding`, `KeyForms` | base58btc, Multikey, hex and private-key forms (draft-msporny-base58, sections 2 to 4; W3C Controlled Identifiers v1.0, section 2.2.2) |
| `StableSort`, `JsonText`, `CanonicalJson`, `UniqueReadability`, `CanonicalMeaning`, `JsonReader` | the three canonicalizers, what their output means, and a reader of it |
| `SignedMessage`, `MessageVerdicts` | signing and verifying a message, and what each verdict means |
| `WsPresence`, `WsPresenceTheorems`, `WsEffects`, `WsServer` | the WebSocket server as a state machine, its runs, what each callback does, and the code that updates its maps in place |
| `RateLimit`, `RateLimitTheorems`, `RateLimitRuns`, `RateLimitWindows`, `RateLimitRetry` | the sliding-window limiter, the ideal limiter it stands for, its admissions over whole runs, keys called with several windows, and what a refused call is told |
| `JsStrings`, `TermVocabulary`, `PredicateClaims`, `PredicateMeaning`, `PredicateAnswers`, `PredicateCacheTheorems`, `PredicateCacheRuns` | what predicates ask, how they are answered from a cache, and the cache over whole runs |
| `ConsentComposition`, `ConsentRows`, `Broker`, `BrokerTheorems`, `BrokerReactors`, `BrokerEnvelope`, `BrokerOutcomes` | consent grants, the broker pipeline, and its default chain end to end |
| `ChainConfig`, `ChainConfigTheorems`, `Publish`, `Subscriptions` | the bus: configuration cache, reactor chain, fan-out |
| `IntroFunnel` | the funnel link verifier |
| `Wrappers` | an optional value |

Code that loops or updates state is a method or a class, proved equal to a specification
function or to a step of a state machine; code made of expressions is a function. The
database is a table that steps may change, time is a parameter, and handlers, reactors, the
signature scheme and the key comparison are arbitrary functions, so every theorem holds for
all of them.

## Where the code does less than it says

Each of these has the exact condition under which the claim holds, and an input on which it
fails.

- `canonicalize` promises one text per object whatever the property order. It holds exactly
  when no object has two keys that `localeCompare` ties, as it ties canonically equivalent
  spellings of one string, such as e-acute in one code unit and in two
  (`CanonicalMeaning.KeyOrderHiddenIffTieFree`, `TiedKeysPrintInInputOrder`). Injectivity
  needs no condition.
- A token check that settles after its socket closed leaves the closed socket indexed for
  good, and two checks in flight can put one socket into two DIDs' sets
  (`WsPresenceTheorems.StepExact`, `LateAuthLeaksASocket`, `TwoAuthsShareASocket`).
- The rate limit is kept, over every run, exactly for windows of at most 120001 ms, because
  a key idle for longer than 120 seconds is pruned; hour-long windows are configured in
  `packages/auth/src/constants.ts` (`RateLimitRuns.BurstBoundIff`, `LongWindowAdmitsTooMany`).
  A key called with several limits and windows has every call refused exactly when its own
  window is full, over every run, exactly if every setting with a positive limit has a window
  of at most 120001 ms and, where that is longer than another's, a limit of 1 beside a
  positive one. For every two windows, the shorter of at most two minutes, and every long
  limit of at least 2, a run admits two calls too many in one long window
  (`RateLimitWindows.AlwaysRightIff`, `MixedWindowsAdmitTooMany`; what each call sees is
  `MixedWindowSees`).
  `apps/kernel/app/media/api/transcribe/route.ts` limits by the hour a key other routes limit
  by the minute.
- `retryAfter` is the least whole number of seconds after which a retry is admitted, whatever
  other keys do meanwhile, exactly if the last admission that has to leave the window does so
  in the same second as the oldest, and within the 121 seconds after which a key may be
  pruned (`RateLimitRetry.RetryIsExactIff`). Over every run that calls a key with given
  settings, that is so for one of them exactly if its limit is positive and its window is at
  most a second, or at most 121 seconds with no larger limit on the key that has a window of
  more than a millisecond (`AlwaysExactIff`). With a longer window a call is told more than
  121 seconds and admitted after 121; beside a larger limit it is told some seconds and
  refused again after them (`LongWindowIsToldTooLong`, `LargerLimitIsToldTooLittle`). Windows
  of an hour are configured, and the kernel's routes share one key, the caller's address,
  with limits from 5 to 200 a minute.
- A predicate claim can outlive its value when the field changes between the evaluation and
  the storing of the answer, or when the revocation is late or fails
  (`PredicateCacheRuns.StepExact`, `StaleWriteSurvives`, `UnrevokedWriteLeavesAFalseRow`).
  Under the discipline that rules these out, everyone who asks is told what is true of the
  current value (`PredicateCacheRuns.EveryRequesterIsToldTheTruth`).
- A chain configuration comes from two queries at two moments, so it can match the database
  at no single moment. However much else changes between the queries of the fetch that an
  answer came from, one outage or one write to either of the two rows it reads cannot tear
  it; two can (`ChainConfigTheorems.EveryAnswerSurvivesOneTouch`, `TornLookup`). It matches a
  moment between those queries exactly when the first failed or hit, or at some such moment
  no scoped row showed beside the node default that was read
  (`EveryAnswerTrueAtSomeMomentIff`; that there is one such fetch, `EveryAnswerIsALookup` and
  `OriginIsUnique`).

These hold under a premise that the repository's own data meets; the premise is exact, and
data that breaks it is shown.

- Composed `overlaps` equals direct evaluation exactly for vocabularies on which normalizing
  twice is normalizing once. Any other posed predicate is answered rightly from every sound
  cache exactly when no value tells the argument its answer is filed under from the one
  posed; for a `contains` whose argument is not blank, that is when normalizing it twice is
  normalizing it once. The vocabularies in
  `packages/auth/src/broker-consent-vocabulary.ts` are such; one in which p is also spelled q,
  and q also spelled r, is not (`PredicateCacheTheorems.CompositionFaithfulIff`,
  `AlwaysCurrentIff`, `ContainsAlwaysCurrentIff`, `ChainedVocabularyMisses`,
  `PredicateCacheRuns.ChainedVocabularyLeavesAFalseRow`).
- Two event types are never served each other's chain unless one continues the other with a
  colon, which none in use does (`ChainConfigTheorems.KeysCollideIff`, `ExtendingTypesCrossTalk`).
- A broker preview returns what would be released exactly when the grants name a consent
  reference (`BrokerReactors.PreviewPredictsReleaseIff`, `PreviewMisleads`), and the composed
  reference is that of the most specific match exactly when that match carries one or no grant
  does (`ConsentComposition.PrimaryIsMostSpecificIff`, `UnreferencedMatchIsPassedOver`). Every
  writer of grants in the repository generates a reference, so only a row written by hand can
  lack one.

## Model

| member | source | states |
|---|---|---|
| KeyEncoding.Base58Encode | packages/auth/src/crypto.ts:194-210 | the bignum loops yield one '1' per leading zero byte and then the base-58 digits of the bytes read as one integer |
| KeyEncoding.Base58Decode | packages/auth/src/crypto.ts:212-230 | the reverse loops yield one zero byte per leading '1' and then the base-256 digits; any foreign character throws |
| KeyEncoding.DecodeEncodeBase58 | packages/auth/src/crypto.ts:194-230 | decoding undoes encoding on every byte string, the empty one and leading zeros included |
| KeyEncoding.EncodeDecodeBase58 | packages/auth/src/crypto.ts:194-230 | decoding succeeds exactly on strings over the alphabet, and encoding undoes it on every one of them |
| KeyEncoding.MultikeyRoundTrip | packages/auth/src/crypto.ts:243-268 | every 32-byte key survives encoding and decoding |
| KeyEncoding.MultikeyIsCanonical | packages/auth/src/crypto.ts:256-268 | a string that decodes to a key is that key's only encoding |
| KeyEncoding.MultikeyShape | packages/auth/src/crypto.ts:237-251 | all 2^256 encodings have 48 characters and start with z6Mk |
| KeyEncoding.HexToBytes | packages/auth/src/crypto.ts:30-39 | odd lengths throw; otherwise each pair is read as parseInt and a byte store read it, malformed pairs included |
| KeyEncoding.HexRoundTrip | packages/auth/src/crypto.ts:21-39 | bytes survive hex |
| KeyEncoding.HexStringRoundTrip | packages/auth/src/crypto.ts:21-39 | an even-length string survives the trip through bytes exactly when it is lowercase hex |
| KeyEncoding.SeedFormsAgree | packages/auth/src/crypto.ts:59-72 | a raw seed and its PKCS#8 wrapping extract to the same seed, and extracting from that again gives it back |
| KeyForms.AlphabetIs | packages/auth/src/crypto.ts:192 | the letters are all ASCII digits and letters but 0, O, I and l, in code order |
| KeyForms.HexIs | packages/auth/src/crypto.ts:21-25 | two lowercase hex characters for each byte, the high half first |
| KeyForms.HexToBytesReads | packages/auth/src/crypto.ts:30-39 | what every pair of characters is read as: two digits in either case, one digit and something else, white space or a sign and a digit, or zero |
| KeyForms.SeedIs | packages/auth/src/crypto.ts:59-72 | a seed is 64 characters alone or after the PKCS#8 header, trimmed and lower-cased, and anything else throws |
| Radix.ReadsBack | packages/auth/src/crypto.ts:200-203 | writing a number in any base by repeated division and reading it back gives the number |
| Radix.WritesBackAfterZeros | packages/auth/src/crypto.ts:212-228 | reading a numeral and writing the number gives the numeral less its leading zeros |
| JsonText.QuoteRoundTrip | packages/auth/src/sign.ts:110-112 | a reader recovers every string, lone surrogates included, from its quoted form, whatever follows |
| JsonText.QuoteIsPrefixCode | packages/auth/src/sign.ts:120-122 | quoted strings are self-delimiting and quoting is injective |
| JsonText.QuoteIsShortest | packages/auth/src/sign.ts:110-112 | of all literals without control units or lone surrogates that are read as a string, its quoted form is shorter than every other |
| StableSort.SortIsPermutation | packages/auth/src/sign.ts:119 | sorting loses and invents nothing |
| StableSort.SortIsSorted | packages/auth/src/sign.ts:119 | the result is ordered by any total preorder |
| StableSort.SortIsStable | packages/auth/src/sign.ts:119 | keys that compare equal keep their input order |
| UniqueReadability.JoinIsPrefixCode | packages/auth/src/sign.ts:114-123 | a bracketed, comma-separated list of self-delimiting items determines its items |
| UniqueReadability.PrintIsUniquelyReadable | packages/auth/src/sign.ts:102-124 | printed trees are self-delimiting and equal texts come from equal trees |
| CanonicalJson.CanonicalizeIsPrintOfNorm | packages/auth/src/sign.ts:118-123 | the canonical text is the plain print of the tree with every object sorted |
| CanonicalJson.CanonicalizersAgree | packages/bus/src/predicate-claims.ts:39-50 | the signing canonicalizer and the claim canonicalizer print every tree alike |
| CanonicalJson.CanonicalizersAgreeOnFields | packages/dfos/src/content-publish.ts:138-149 | the same on the fields of an object; the publisher's private copy has the branches of the claim canonicalizer, so one function models both |
| CanonicalMeaning.CanonicalTextDeterminesValue | packages/auth/src/sign.ts:102-134 | equal canonical texts come from the same value, ties or not |
| CanonicalMeaning.AnyKeyOrderDeterminesValue | packages/auth/src/sign.ts:118-123 | injectivity whatever order each object's fields end up in, so for every comparison, consistent or not |
| CanonicalMeaning.SameTextIffSameValue | packages/auth/src/sign.ts:96-101 | without ties: same text exactly for the same value |
| CanonicalMeaning.KeyOrderHiddenIffTieFree | packages/auth/src/sign.ts:96-101 | key order never shows exactly when no object at any depth has two tying keys |
| CanonicalMeaning.TiedKeysPrintInInputOrder | packages/auth/src/sign.ts:119 | under a total preorder that identifies two canonically equivalent keys, the two orders of an object with both print differently |
| JsonReader.PrintReadsBack | packages/auth/src/sign.ts:102-124 | a reader written from the JSON grammar recovers every printed tree, whatever delimited text follows |
| JsonReader.CanonicalTextReads | packages/auth/src/sign.ts:96-134 | read by the grammar, a canonical text is the value it was made of up to key order, with every object's keys in order, and what follows it is left over |
| SignedMessage.VerifyAcceptsExactlyTheSignedMessage | packages/auth/src/verify.ts:103-144 | a message carrying a signed message's signature is accepted exactly when it is that message up to key order and within the time window |
| SignedMessage.AcceptedContentIsSignedContent | packages/auth/src/verify.ts:136-144 | accepted content is signed content, for every comparison function |
| SignedMessage.SignedFields | packages/auth/src/sign.ts:73-94 | a signed message has the four signed fields and the signature, and is the signed object without it |
| SignedMessage.SameValueWithout | packages/auth/src/verify.ts:136 | dropping the signature field loses nothing else |
| MessageVerdicts.SignedIs | packages/auth/src/sign.ts:73-94 | signing yields the sender, its type, the time and the payload under their names, and the signature of the canonical text of those four |
| MessageVerdicts.VerdictMeans | packages/auth/src/verify.ts:103-144 | for every message, key, clock and options, the verdict is the first of: not formed, malformed key, malformed signature, older than allowed, ahead of the clock, signature of another text; or valid |
| WsPresenceTheorems.StepExact | apps/kernel/ws-server.js:275-293 | one callback keeps the indexes, timers and announcements consistent exactly when it is benign, a guard on the state it runs in |
| WsPresenceTheorems.EveryRun | apps/kernel/ws-server.js:502-532 | from start-up, every state of a run is consistent exactly when every callback was benign |
| WsPresenceTheorems.OrderlyIsBenign | apps/kernel/ws-server.js:393-402 | one auth per socket, settled while it is open and not yet authenticated, is enough |
| WsPresenceTheorems.FinishAuthExact | apps/kernel/ws-server.js:275-293 | the exact condition for a deferred auth that settles |
| WsPresenceTheorems.DispatchExact | apps/kernel/ws-server.js:393-429 | the exact condition for a message |
| WsPresenceTheorems.CleanupKeeps | apps/kernel/ws-server.js:459-484 | cleanup always keeps the invariant |
| WsPresenceTheorems.LateAuthLeaksASocket | apps/kernel/ws-server.js:275-285 | a check that settles after the close indexes a closed socket |
| WsPresenceTheorems.TwoAuthsShareASocket | apps/kernel/ws-server.js:394-396 | two checks in flight put a socket into two sets |
| WsPresenceTheorems.PushReachesExactlyTheDid | apps/kernel/ws-server.js:541-554 | after any benign run a push to a DID reaches exactly its open, ready, authenticated sockets and its ready delegates |
| WsPresenceTheorems.NoSocketInTwoSets | apps/kernel/ws-server.js:14 | no socket is in two DIDs' sets |
| WsPresenceTheorems.LastAnnouncementIsTheTruth | apps/kernel/ws-server.js:289-291 | announcements alternate, and the last one is online exactly when the DID has an open socket |
| WsPresenceTheorems.OfflineLeavesNothingBehind | apps/kernel/ws-server.js:478-482 | a DID without sockets is typing nowhere and has no pending timer |
| WsPresenceTheorems.FiredTimerIsItsEntry | apps/kernel/ws-server.js:110-112 | a timer that fires stops the entry it was set for |
| WsPresenceTheorems.CleanupTwiceIsOnce | apps/kernel/ws-server.js:442-461 | a repeated cleanup changes nothing |
| WsEffects.SendsDoes | apps/kernel/ws-server.js:295-429 | what a message does to subscriptions, typing entries and timeouts, and that it does nothing else: a start lists the DID under the given name with one pending timeout, a stop leaves no entry and no timeout, a subscribe adds the ids given, an unauthenticated socket can only begin an auth |
| WsEffects.ConnectsDoes | apps/kernel/ws-server.js:502-521 | what a connection registers, indexes and announces |
| WsEffects.AuthSettlesDoes | apps/kernel/ws-server.js:275-293 | what a settled token check changes, and nothing else |
| WsEffects.ClosesDoes | apps/kernel/ws-server.js:442-484 | a close takes the socket from its DID; the last one announces the DID offline, removes its typing entries and timeouts everywhere, and leaves all others |
| WsEffects.TimerFiresDoes | apps/kernel/ws-server.js:108-114 | a timeout that fires removes the entry it was set for and nothing else |
| WsServer.Server.StartTypingIn | apps/kernel/ws-server.js:98-114 | replaces the pending timer and lists the DID |
| WsServer.Server.StopTypingOf | apps/kernel/ws-server.js:128-142 | clears the timer, the entry and an emptied conversation |
| WsServer.Server.OnConnection | apps/kernel/ws-server.js:502-521 | registers the socket and announces a first one |
| WsServer.Server.OnAuthSettled | apps/kernel/ws-server.js:275-293 | what happens after the await, whatever changed meanwhile |
| WsServer.Server.Dispatch | apps/kernel/ws-server.js:393-429 | routes a message, or starts a deferred auth |
| WsServer.Server.Cleanup | apps/kernel/ws-server.js:459-484 | removes the socket everywhere and, for a last socket, stops typing and announces |
| WsServer.Server.StopEverywhere | apps/kernel/ws-server.js:478-482 | the loop over a map that shrinks under it stops the DID in every conversation |
| WsServer.Server.SendToDid | apps/kernel/ws-server.js:541-554 | sends to exactly the ready sockets among the DID's own and its delegates, and reports whether there were any |
| RateLimit.Limiter.PruneStore | packages/config/src/rate-limit.ts:14-22 | at most once a minute, drops exactly the keys idle for more than 120 seconds |
| RateLimit.Limiter.RateLimit | packages/config/src/rate-limit.ts:24-48 | the in-place limiter makes the step of the specification |
| RateLimitTheorems.PrunedLimiterIsIdeal | packages/config/src/rate-limit.ts:14-48 | on every run the calls on a key that keeps one window of at most 120001 ms are answered as by a limiter that forgets nothing, whatever limits it asks for and whatever other keys do |
| RateLimitTheorems.EveryVerdictIsIdeal | packages/config/src/rate-limit.ts:14-48 | and every call of the run is, if every key keeps such a window |
| RateLimitRuns.PruningIsInvisibleIff | packages/config/src/rate-limit.ts:17 | pruning changes no verdict on a key called with one setting, over every run and whatever other keys do, exactly when its window is at most 120001 ms |
| RateLimitTheorems.IdealNeverExceedsLimit | packages/config/src/rate-limit.ts:32-47 | a limiter that forgets nothing keeps the burst bound for windows of any length |
| RateLimitTheorems.NoBurstExceedsLimit | packages/config/src/rate-limit.ts:32-47 | every interval of one window length holds at most the limit of admitted calls of a key called with one setting whose window is at most 120001 ms, whatever other keys do |
| RateLimitRetry.RetryIsExactIff | packages/config/src/rate-limit.ts:38-43 | for any call of any run: a retry m whole seconds later is admitted exactly when m has reached retryAfter, for every m and everything other keys may do, if and only if the call was admitted, or has a positive limit and its window's oldest admission leaves in the same second as the last that must, within 121 seconds |
| RateLimitRetry.AlwaysExactIff | packages/config/src/rate-limit.ts:24-48 | for every set of settings a key is called with, exactly which of them are always told right: a positive limit, and a window of at most a second, or of at most 121 seconds beside no larger limit with a window of more than a millisecond |
| RateLimitRetry.OneSettingIsExactIff | packages/config/src/rate-limit.ts:24-48 | a key called with one setting of positive limit is always told right exactly for windows of at most 121 seconds |
| RateLimitRetry.LongWindowIsToldTooLong | packages/auth/src/constants.ts:50-52 | for every longer window and every limit, a refused call is told more than 121 seconds and admitted after 121 |
| RateLimitRetry.LargerLimitIsToldTooLittle | apps/kernel/app/auth/api/register/route.ts:40 | for every window of more than a second and at most 121, and every larger limit on the key with a window of at least 2 ms, a refused call is told some seconds and refused again after them |
| RateLimitRuns.AdmissionsAreTimes | packages/config/src/rate-limit.ts:45-47 | the admissions of a run are what its verdicts say |
| RateLimitRuns.BurstBoundIff | packages/config/src/rate-limit.ts:14-48 | over every run, and whatever other keys do, no interval of one window length holds more than the limit of a key called with one setting, exactly for windows of at most 120001 ms |
| RateLimitRuns.LongWindowAdmitsTooMany | packages/auth/src/constants.ts:50-52 | for every longer window and every limit, a run on which one window length holds a call more than the limit |
| RateLimitWindows.MixedWindowSees | packages/config/src/rate-limit.ts:14-48 | whatever positive windows a key is called with, and however long it idles, a call decides by exactly the admissions newer than its own and every earlier call's window start and than the last call before every pruning of the key |
| RateLimitWindows.RefusalsAreRight | packages/config/src/rate-limit.ts:32-43 | whatever settings share a key, a refused call's own window does hold its limit |
| RateLimitWindows.MixedWindowsAdmitTooMany | apps/kernel/app/media/api/transcribe/route.ts:186 | for every two windows, the shorter of at most two minutes, and every long limit of at least 2, a run admits two calls more than the long limit within one long window |
| RateLimitWindows.AlwaysRightIff | packages/config/src/rate-limit.ts:24-48 | for every set of settings with positive windows: over every run that calls a key with these only, each call is refused exactly when its own window is full, if and only if the settings are compatible |
| TermVocabulary.NormalizeBrokerTerm | packages/auth/src/broker-consent-vocabulary.ts:364-378 | the search returns the canonical term of the first entry accepting the normalized spelling |
| TermVocabulary.NormalizeTermValueIdempotent | packages/auth/src/broker-consent-vocabulary.ts:356-358 | normalizing a spelling twice is normalizing it once |
| TermVocabulary.IdempotentIffListedSpellingsSettle | packages/auth/src/broker-consent-vocabulary.ts:364-378 | term normalization is idempotent on all strings exactly when the listed spellings settle |
| TermVocabulary.DisjointSpellingsSettle | packages/auth/src/broker-consent-vocabulary.ts:372-375 | pairwise disjoint spellings settle |
| TermVocabulary.NoVocabularyIsIdempotent | packages/bus/src/predicate-claims.ts:61-69 | a field without a vocabulary needs no premise |
| TermVocabulary.ValidateBrokerPurposeFields | packages/auth/src/broker-consent-vocabulary.ts:337-354 | the loop sorts fields into allowed-and-known and the rest, in input order |
| TermVocabulary.ValidationPartitions | packages/auth/src/broker-consent-vocabulary.ts:336 | no field is lost or invented |
| TermVocabulary.ValidFieldsAre | packages/auth/src/broker-consent-vocabulary.ts:322-354 | valid are exactly the fields that are known and that the purpose's entry allows; an unknown purpose allows none |
| PredicateClaims.ReadCachedFinds | packages/bus/src/predicate-claims.ts:219-243 | the read returns the latest issued live row under the key if there is one |
| PredicateMeaning.TrimIs | packages/bus/src/predicate-claims.ts:56-59 | trimming takes the white space off both ends, all of it, and nothing else |
| PredicateMeaning.SpellingIs | packages/auth/src/broker-consent-vocabulary.ts:356-358 | a spelling is compared trimmed, without case, with hyphens and spaces as underscores |
| PredicateMeaning.TermIs | packages/bus/src/predicate-claims.ts:65-69 | a spelling stands for the term of the first registry entry that lists it, or for itself as compared |
| PredicateMeaning.ItemsAre | packages/bus/src/predicate-claims.ts:71-95 | the items of a value are the non-blank trimmed parts of its text: between commas and semicolons, an array's scalars, or its own text |
| PredicateMeaning.EvaluateMeans | packages/bus/src/predicate-claims.ts:144-169 | what each predicate asks of a value: the same scalar, emptiness, an item standing for the same term, a shared term, the order of two scalars, or a throw |
| PredicateAnswers.ReadIs | packages/bus/src/predicate-claims.ts:219-243 | a read finds a row of this subject under this key, not revoked and not expired, issued last of those, or there is none |
| PredicateAnswers.KeyReads | packages/bus/src/predicate-claims.ts:177-185 | read by the JSON grammar, a key text names the subject, the field, the predicate and the argument |
| PredicateAnswers.AnswerIs | packages/bus/src/predicate-claims.ts:370-413 | a posed predicate but overlaps: forbidden or unusable, else answered by the row that counts, else by a fresh claim on the value, filed under its normalized argument, good for an hour and to be stored |
| PredicateAnswers.CompositionIs | packages/bus/src/predicate-claims.ts:287-359 | an overlaps needs both permissions; it is true exactly if one of its primitives is, one per distinct term declared, names their keys in order, and has only its fresh primitives stored |
| PredicateClaims.ResolveOverlapsClaim | packages/bus/src/predicate-claims.ts:310-359 | every declared term is read, each at its own moment, none skipped on a match; the composed claim and its fresh primitives |
| PredicateClaims.ResolveForField | packages/bus/src/predicate-claims.ts:361-417 | claims and cache writes of all posed predicates of every kind, in order, or a throw |
| PredicateClaims.CacheKeyIsStableJson | packages/bus/src/predicate-claims.ts:177-185 | the key text is stableJson of the four parameters |
| PredicateCacheTheorems.CacheKeyIdentifies | packages/bus/src/predicate-claims.ts:177-185 | one key text per subject, field, predicate and argument, a missing argument included |
| PredicateCacheTheorems.ComposedIsDisjunction | packages/bus/src/predicate-claims.ts:292-304 | the composed answer is the disjunction of direct contains, over any sound cache read term by term |
| PredicateCacheTheorems.ComposedOverlapsIsDirect | packages/bus/src/predicate-claims.ts:144-169 | composed overlaps is direct overlaps for every declared set, value and sound cache |
| PredicateCacheTheorems.CompositionFaithfulIff | packages/bus/src/predicate-claims.ts:65-69 | and that holds exactly when normalization is idempotent |
| PredicateCacheTheorems.ChainedVocabularyMisses | packages/bus/src/predicate-claims.ts:65-69 | a vocabulary on which a set does not overlap itself when composed |
| PredicateCacheTheorems.AlwaysCurrentIff | packages/bus/src/predicate-claims.ts:389-413 | a posed predicate of any kind but overlaps, with any argument, is answered rightly from every sound cache exactly when no value evaluates under the filed argument to something other than under the posed one |
| PredicateCacheTheorems.ContainsAlwaysCurrentIff | packages/bus/src/predicate-claims.ts:389-413 | for a contains, blank or not: exactly when its argument is settled, or no item of a set normalizes to its term or to what that normalizes to |
| PredicateCacheTheorems.NonBlankAlwaysCurrentIff | packages/bus/src/predicate-claims.ts:389-413 | for a contains whose argument is not blank: exactly when it is settled |
| PredicateCacheTheorems.BlankIsSettled | packages/bus/src/predicate-claims.ts:61-69 | a blank argument is settled unless the registry lists a blank spelling |
| PredicateCacheTheorems.WritesExactlyTheColdTerms | packages/bus/src/predicate-claims.ts:325-337 | exactly one write per declared term that is cold when it is read |
| PredicateCacheTheorems.ResolvingAgainWritesNothing | packages/bus/src/predicate-claims.ts:310-337 | with those rows stored, the same set writes nothing within the hour |
| PredicateCacheRuns.AnswersAreCurrent | packages/bus/src/predicate-claims.ts:361-417 | a posed predicate is answered with its evaluation when the cache reads meet sound states in which the field has that value |
| PredicateCacheRuns.EveryRequesterIsToldTheTruth | packages/bus/src/predicate-claims.ts:361-417 | in every disciplined run whose resolutions read the run's own rows, a whole resolution answers every posed predicate of every kind with its evaluation on the current value, or throws exactly when one is forbidden or does |
| PredicateCacheTheorems.PosedAnswerIsCurrent | packages/bus/src/predicate-claims.ts:370-413 | over a sound cache, every posed predicate of every kind that is filed faithfully, cached or fresh, is answered with its evaluation, or is forbidden or throws |
| PredicateCacheRuns.StepExact | packages/bus/src/types.ts:353-366 | a step keeps every live row, of every kind, true of the current value exactly when it is benign |
| PredicateCacheRuns.WritesAreKeyed | packages/bus/src/predicate-claims.ts:389-413 | what a whole resolution wants stored is filed under its own key, and true of its value if its posed arguments are settled |
| PredicateCacheRuns.EveryRun | packages/bus/src/types.ts:353-366 | over every run of resolutions of any posed predicates, storing, ticks, changes, unrevoked changes and revocations: sound throughout exactly when every step was benign |
| PredicateCacheRuns.ChangeIsWriteThenRevoked | packages/bus/src/reactors/broker-predicate-invalidation.ts:21-44 | a late revocation repairs any change of value |
| PredicateCacheRuns.SettledRunsAreSound | packages/bus/src/types.ts:353-366 | runs that pose settled arguments, and in which no field changes under a running resolution or a waiting answer, are sound |
| PredicateCacheRuns.StaleWriteSurvives | packages/bus/src/reactors/release.ts:64-87 | resolve, change, store leaves a live row that is false, on every registry |
| PredicateCacheRuns.UnrevokedWriteLeavesAFalseRow | packages/bus/src/reactors/broker-predicate-invalidation.ts:21-44 | resolve, store, and a change whose revocation never comes leave a live row that is false, on every registry |
| PredicateCacheRuns.UnsettledContainsLeavesAFalseRow | packages/bus/src/predicate-claims.ts:389-413 | posing and storing a contains whose argument is not settled leaves a live row that is false though nothing changes |
| PredicateCacheRuns.ChainedVocabularyLeavesAFalseRow | packages/bus/src/predicate-claims.ts:389-413 | a vocabulary and an argument on which it does |
| ConsentComposition.ComposeEntries | packages/bus/src/broker-config.ts:128-148 | the nested loops compute the closed form: union of fields, per-field mode and reference, primary reference, summary |
| ConsentComposition.SummarizeMode | packages/bus/src/broker-config.ts:91-97 | one mode for all granted fields, or mixed |
| ConsentComposition.ComposeKeepsClosedForm | packages/bus/src/broker-config.ts:99-120 | composing one more grant of a field keeps the closed form |
| ConsentComposition.GrantedAndRawIff | packages/bus/src/broker-config.ts:122-148 | granted exactly when some entry grants it, raw exactly when every entry granting it is raw |
| ConsentComposition.ReferenceIsFirstOfWinningMode | packages/bus/src/broker-config.ts:108-117 | a field's reference is that of the first entry granting it in the winning mode |
| ConsentComposition.AddingEntriesIsMonotone | packages/bus/src/broker-config.ts:108 | more entries never drop a field or turn attestation into raw |
| ConsentComposition.OrderDoesNotMatter | packages/bus/src/broker-config.ts:128-148 | fields, modes and summary are invariant under permutation |
| ConsentComposition.SummaryIff | packages/bus/src/broker-config.ts:91-97 | the summary names a mode exactly when every granted field has it |
| ConsentComposition.PrimaryIsMostSpecificReferenced | packages/bus/src/broker-config.ts:204-245 | among ordered grants, the primary reference is of a row no referenced row is more specific than |
| ConsentComposition.MostSpecificComesFirst | packages/bus/src/broker-config.ts:241-243 | the first ordered row is one no row is more specific than, the earliest of its kind |
| ConsentComposition.PrimaryIsMostSpecificIff | packages/bus/src/broker-config.ts:122-127 | the primary reference is that of the most specific match exactly when the match carries one or no row does |
| ConsentComposition.UnreferencedMatchIsPassedOver | packages/bus/src/broker-config.ts:138 | an exact match without a reference loses to a wildcard with one |
| ConsentRows.FirstOfOrdered | packages/bus/src/broker-config.ts:204-245 | the first ordered row with a property is one no such row outranks and, among those it ties with, the earliest stored: purpose decides before requester |
| ConsentRows.RowsGrantIff | packages/bus/src/broker-config.ts:211-245 | on the stored rows: a field is granted exactly when some row lists it, raw exactly when every row listing it is raw, on the reference of the first row in order that lists it in that mode |
| ConsentRows.RowsPrimaryIs | packages/bus/src/broker-config.ts:122-148 | the reference of the whole is that of the first row in order that carries one, and none exactly when no row does |
| Broker.ResolveBrokerChain | packages/bus/src/broker.ts:61-100 | throws on an unregistered enabled reactor, falls back on an unusable configuration, and is never empty |
| Broker.EnabledStepsAre | packages/bus/src/broker.ts:83-89 | the steps are the enabled reactors, each under its registered name, in order |
| Broker.RunChain | packages/bus/src/broker.ts:125-264 | the loop with its early exits ends as the specification says |
| Broker.AuditRejection | packages/bus/src/reactors/audit.ts:168-172 | a preview's rejection is not audited; any other is handed to the audit |
| Broker.BrokerCall | packages/bus/src/broker.ts:125-140 | nothing runs when no chain resolves; otherwise the resolved chain runs |
| BrokerTheorems.ReleasedIff | packages/bus/src/broker.ts:141-264 | released exactly when every reactor not skipped accepted in order and the last state is complete |
| BrokerTheorems.ReleaseIsTheLastState | packages/bus/src/broker.ts:202-264 | what is released is what the last state holds |
| BrokerTheorems.NothingRunsAfterTheStop | packages/bus/src/broker.ts:142-182 | the reactors called are exactly those due up to the first that rejects or throws |
| BrokerTheorems.OneAuditPerRefusal | packages/bus/src/broker.ts:159-250 | if the audit does not throw, one audit per refusal, of the rejection returned |
| BrokerTheorems.AuditFailureDecides | packages/bus/src/broker.ts:149-182 | what the try around the audit would do if the audit ever were to throw |
| BrokerTheorems.SubjectHearsIff | packages/bus/src/reactors/consent-request-notify.ts:16-45 | the subject hears of a request exactly when a reactor rejected it for lack of consent in a binding run, and the notify service is configured and reachable |
| BrokerTheorems.ShadowDiffersOnlyInEnforced | packages/bus/src/broker.ts:114-117 | shadow and enforce runs differ only in the flag when reactors ignore the mode |
| BrokerReactors.DefaultShadowPredicts | packages/bus/src/broker.ts:114-117 | no reactor of the default chain reads the mode, so its shadow run is its enforced run but for the flag |
| BrokerTheorems.ResultSaysIfEnforced | packages/bus/src/broker.ts:129-130 | every result says whether it binds |
| BrokerReactors.ResolveFields | packages/bus/src/reactors/scope.ts:53-93 | the field loop stops at the first field whose predicates fail, else filters every field |
| BrokerReactors.ScopeOutcome | packages/bus/src/reactors/scope.ts:100-158 | after consent, scope passes exactly the answerable requests, with what the grants permit |
| BrokerReactors.ConsentAndScope | packages/bus/src/reactors/consent.ts:14-58 | the state of the default chain after consent and scope |
| BrokerReactors.DefaultChainReleasesIff | packages/bus/src/reactors/release.ts:126-150 | the default chain releases exactly what the grants permit, exactly when something is granted, answerable and referenced |
| BrokerReactors.DefaultChainPreviewsIff | packages/bus/src/broker.ts:202-235 | the same in preview, reference or not |
| BrokerReactors.PreviewPredictsReleaseIff | packages/bus/src/broker.ts:111-112 | a releasing preview predicts the real run exactly when a reference exists |
| BrokerReactors.PreviewMisleads | packages/bus/src/reactors/release.ts:134-137 | a request whose preview releases what the real run refuses |
| BrokerReactors.NothingBeyondConsent | packages/bus/src/broker.ts:102-118 | in every mode, a released field was asked for and granted, and its value leaves only if every grant of it is raw |
| BrokerEnvelope.EnvelopeSays | packages/bus/src/reactors/release.ts:89-150 | every release of the default chain, real or preview, names the request's scope and purpose, the time and id, one mode exactly when everything granted has it, the first reference the grants carry, and for exactly the released fields their private mode and the reference of the first grant in it |
| BrokerOutcomes.AnswerSays | packages/bus/src/broker.ts:141-264 | over any chain: a rejection is returned as it is with the flag, a throw is named with its reactor, an incomplete run is refused as such, and any other run releases |
| BrokerOutcomes.RunCalls | packages/bus/src/broker.ts:142-182 | the reactors called are all up to the one that rejected or threw, once each and in order, but in a preview neither release nor audit |
| BrokerOutcomes.ChainIs | packages/bus/src/broker.ts:61-100 | a usable configuration's chain is its enabled reactors in order under their names; one without any is the default chain |
| BrokerOutcomes.PreviewShows | packages/bus/src/broker.ts:202-235 | over any chain: what a preview shows of the state it ends in, field by field |
| BrokerOutcomes.DefaultRefusals | packages/bus/src/reactors/scope.ts:100-158 | why the default chain refuses: lack of consent, the first field that cannot be answered, or the missing reference, each with its reason, fields and details; otherwise it releases |
| ChainConfig.Configs.GetCached | packages/bus/src/config.ts:554-564 | answers until expiry, and deletes what has expired |
| ChainConfig.Configs.SetCached | packages/bus/src/config.ts:566-568 | stores for the time to live |
| ChainConfig.Configs.Begin | packages/bus/src/config.ts:606-619 | the fetch up to its first await |
| ChainConfig.Configs.AfterScopedQuery | packages/bus/src/config.ts:622-641 | the fetch after the scoped query, failures included |
| ChainConfig.Configs.AfterDefaultQuery | packages/bus/src/config.ts:640-664 | the fetch after the node-default query |
| ChainConfig.Configs.Finish | packages/bus/src/config.ts:666-673 | stores the result, a miss included, and returns it |
| ChainConfigTheorems.CacheKeyIdentifies | packages/bus/src/config.ts:550-552 | keys identify event type and scope when neither type continues the other with a colon |
| ChainConfigTheorems.KeysCollideIff | packages/bus/src/config.ts:550-552 | two event types share a key exactly when one continues the other with a colon |
| ChainConfigTheorems.EveryAnswerIsALookup | packages/bus/src/config.ts:606-674 | every answer of every run, cached or fresh, is the lookup made by the queries of one fetch of the run, called, queried and settled in this order, the last to settle under the caller's key and at most the time to live ago; and called within any bound on fetches before that |
| ChainConfigTheorems.OriginIsUnique | packages/bus/src/config.ts:606-674 | there is only one such fetch, with one step for its call, each of its queries and its settling |
| ChainConfigTheorems.CallAnsweredIff | packages/bus/src/config.ts:554-619 | in every run a call is answered at once exactly when the last result stored under its key is at most five minutes old, and otherwise starts a fetch |
| ChainConfigTheorems.EveryAnswerIsItsOwnLookup | packages/bus/src/config.ts:578-684 | and getChainConfig makes of it the scoped row, the node default or the hardcoded reactors of the caller's own event type and scope, when no event type in use continues another |
| ChainConfigTheorems.ExtendingTypesCrossTalk | packages/bus/src/config.ts:550-552 | otherwise a run serves one event type the other's chain |
| ChainConfigTheorems.EveryAnswerTrueAtSomeMomentIff | packages/bus/src/config.ts:606-674 | the answer is the lookup at one moment between that fetch's own two queries exactly when the first failed or hit, or at some such moment no scoped row showed beside the node default that was read |
| ChainConfigTheorems.OneTouchIsHarmless | packages/bus/src/config.ts:622-664 | any number of changes between the queries, of which at most one is an outage or a write to one of the two rows read, leaves the answer true at some moment |
| ChainConfigTheorems.EveryAnswerSurvivesOneTouch | packages/bus/src/config.ts:606-674 | the same for every answer of every run, between its own two queries |
| ChainConfigTheorems.TornLookup | packages/bus/src/config.ts:622-664 | a run with two changes whose answer is true of the table at no moment |
| Publish.FindMissing | packages/bus/src/publish.ts:48-51 | the names of the enabled reactors nobody registered, in order |
| Publish.Publish | packages/bus/src/publish.ts:45-75 | nothing starts if a reactor is unknown; else each enabled one starts once, in order, each awaited one settles before later ones start, and failures change nothing |
| Publish.RunReactor | packages/bus/src/publish.ts:58-74 | one turn of the loop, for every behaviour of the handlers |
| Publish.EnabledUpToIsOrdered | packages/bus/src/publish.ts:58-59 | the expected starts are the enabled positions, once each, ascending |
| Subscriptions.EventTypesForScope | packages/auth/src/grant-scopes.ts:79-87 | the event types of a scope, each once |
| Subscriptions.IndexScope | packages/bus/src/subscriptions.ts:67-73 | one scope added to the reverse index |
| Subscriptions.ReverseIndex.CapabilitiesEntitling | packages/bus/src/subscriptions.ts:64-77 | built on first use and the same ever after |
| Subscriptions.IndexIsTheInverse | packages/bus/src/subscriptions.ts:64-77 | the reverse index is the exact inverse of the scope table |
| Subscriptions.IndexListsOnce | packages/bus/src/subscriptions.ts:67-73 | it lists no scope twice if the table has none twice |
| Subscriptions.Dedupe | packages/bus/src/subscriptions.ts:166-175 | one push per agent with a row admitting the subject, carrying the first such row's grant |
| Subscriptions.RowsAdmitIffGrantsDo | packages/bus/src/subscriptions.ts:141-156 | looked-up rows admit an agent exactly when one of its live grants does, in any row order |
| Subscriptions.ProvenanceAdmits | packages/bus/src/subscriptions.ts:166-175 | the provenance of a push is an admitting grant of that agent |
| Subscriptions.Deliver | packages/bus/src/subscriptions.ts:108-180 | end to end: an agent is pushed to once exactly when one of its grants admits the event and logging, lookup and configuration hold |
| IntroFunnel.AcceptedIff | packages/auth/src/intro-funnel.ts:153-165 | a funnel is accepted exactly when every link in it holds |
| IntroFunnel.LinkVerifiesIff | packages/auth/src/intro-funnel.ts:126-150 | one link verifies exactly when it points where its type must |
| IntroFunnel.RefusalNamesTheFirst | packages/auth/src/intro-funnel.ts:158-163 | a refusal names the first bad event and its reason |
| IntroFunnel.FollowDescends | packages/auth/src/intro-funnel.ts:90-103 | each step back loses one rank and stays in the funnel |
| IntroFunnel.AcceptedIsWellFounded | packages/auth/src/intro-funnel.ts:90-103 | from every event, at most two steps back reach an intro_proposed that points nowhere, with no cycle |
| IntroFunnel.AppendAcceptedIff | packages/auth/src/intro-funnel.ts:153-165 | the exact condition for appending an event with any id |
| IntroFunnel.FreshAppendAcceptedIff | packages/auth/src/intro-funnel.ts:126-165 | with a fresh id, its own link is all that matters |
| IntroFunnel.AcceptanceIgnoresOrder | packages/auth/src/intro-funnel.ts:156-163 | with distinct ids, acceptance does not depend on order |
| IntroFunnel.VerdictIs | packages/auth/src/intro-funnel.ts:90-165 | accepted exactly when every event is of a known type and points at the last event with its id, of the type it must follow, or nowhere; otherwise the first that is not is named, with what is wrong with it |
| IntroFunnel.LinkAgainst | packages/auth/src/intro-funnel.ts:126-150 | one event against any predecessor a caller holds: each verdict and each reason, exactly when it is given |

## Left out

- Ed25519, SHA-256, CIDs and JWTs are library calls: signing and checking are arbitrary functions, tied together only on the text at hand, and the text a cache key digests stands for the digest.
- JSON numbers are represented by their printed text; `undefined`, bigint, NaN and -0 are not JSON trees. Objects list their fields in any order, including orders an engine would not enumerate for integer-like keys.
- `localeCompare` is an arbitrary comparison, assumed a total preorder where that is needed.
- Lower-casing covers the ASCII letters; trimming covers the ECMAScript white space and line terminators.
- Records keyed by field names are maps: names every JavaScript object inherits (`constructor`, `__proto__`) are not treated apart.
- WsServer.Server: a connection's shared meta object is an entry of a map, which the callbacks of that socket read and write.
- WsServer.Server.SendToDid: the delegates of a DID are a parameter; how the delegate registry comes by them, the heartbeat, the notification backlog, last-seen updates and conversation broadcasts are not part of this model.
- PredicateClaims.ReadCached: rows without expiry, which nothing writes, are not modelled.
- PredicateClaims.Ordered: how two scalars compare, as numbers or as ISO dates, is a parameter that may also throw; the signing of stored claims is not modelled.
- PredicateCacheRuns.Step: a resolution enters a run when it ends, with whatever its reads met and the value it was handed; it does not enter when it never ends.
- Broker.AuditRejection: its row and its event are not modelled, nor are their failures, which it catches; the error it may return stands for an audit other than the one written.
- BrokerTheorems.AuditFailureDecides: is about the broker's own try and catch; the audit written today never throws, so its premise is met only by another audit.
- BrokerReactors.ScopeReactor: the lists of claims and cache writes it threads through, and the attestations the release step emits, are not modelled; whether a field's posed predicates resolve is a parameter.
- BrokerReactors.AuditReactor: its log row, receipt and event are not modelled, only whether it passes the state on; the mutual-reach and intersection reactors are arbitrary reactors.
- ConsentComposition.Composed: reach-ring grants and the hardcoded fallback grants enter only as entries.
- Publish.Publish: the event object handed to handlers, and what fire-and-forget handlers do after the chain returns, are not modelled.
- Subscriptions.Deliver: the frame's other fields and the outcome of each push are not modelled.
- The contents of the scope, vocabulary, field and default-chain tables: theorems hold for all tables.
- HTTP, Postgres, Telegram, file system, React and deployment code, and the floating-point amounts of emissions.
