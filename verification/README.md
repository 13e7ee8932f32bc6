# Verified models of the ticketing services

Dafny models of the algorithms and small protocols in this repository that are easy to get subtly
wrong, with proofs that hold for every input, every run or every interleaving. The whole project is
checked with `dafny verify dfyconfig.toml`.

| file | what it models |
|---|---|
| `TokenExchange.dfy`, `TokenExchangeRuns.dfy`, `InsertionMap.dfy`, `Recency.dfy` | the token-exchange cache of the MCP service: a bounded, time-limited LRU on a JavaScript `Map`, with calls that overlap while they await the authorization server |
| `CanonicalJson.dfy`, `JsonText.dfy`, `KeyOrder.dfy`, `IdempotencyKey.dfy`, `Unicode.dfy`, `Text.dfy` | canonical JSON and the UTF-8 bytes hashed for an idempotency key |
| `Wrap.dfy`, `Words.dfy`, `SequenceLayout.dfy` | the greedy word wrap and the row layout of the diagram framework |
| `OrderConsumer.dfy`, `Retry.dfy` | the order-completed consumer of the attendance service as a protocol over a partition, and its retry loop |
| `Base64Url.dfy`, `QrToken.dfy`, `UserIdSignature.dfy` | signed admission tokens and the signed user id header |
| `Federation.dfy` | grouped, concurrent GraphQL entity resolution |
| `SeatSelection.dfy`, `SeatGrid.dfy` | seat selection, hold and release commands, and the seat grid of the client |
| `StepUp.dfy` | scope step-up of the MCP service |
| `ServerApi.dfy` | the bounded read-retry loop of the client |
| `Wrappers.dfy`, `Numbers.dfy`, `Sequences.dfy` | shared small definitions |

## Modelling choices

- Code that changes state is a class or a method with loops, proved against a specification
  function; the properties are lemmas about that function. Where calls overlap (the token cache, the
  consumer, the entity goroutines), a run is any sequence of the atomic steps.
- SHA-256, HMAC, the JSON codec of the QR claims, entity resolvers, font metrics, the network, the
  clock and random numbers are parameters. Nothing is assumed of a hash on all texts: where a
  collision would matter, the lemma asks that the texts of the run at hand do not collide. The laws
  asked of number printing and of text width are shown to be met by decimal integers
  (`DecimalIsNumberPrinter`) and by counting characters (`LengthIsMonotone`).
- JavaScript strings are sequences of 16-bit code units, lone surrogates included. Go strings are
  sequences of bytes. Times are reals in milliseconds in the token cache, where `expires_in` may be
  fractional.
- JSON numbers are an abstract type with a printer; -0 and 0, which print alike, are one number.
- Products and quotients by a variable column count are written as repeated addition and
  subtraction (`Product`, `RowOf`, `ColumnOf` in `SeatGrid.dfy`).

## Where the code and its documentation part

- `consumer.go:154` says an offset whose dead-letter publish failed will be redelivered. It is
  unless a later message of the same session is committed first, since commits are cumulative; then
  it is lost for good. `LostIff` is the exact condition, `LossExample` a run, `LostForGood` the rest.
- `user_id_signature.go:11-12` speaks of a 60-second window. A signature passes in its own minute
  and the next, so for up to 119 s (`AcceptedAfter119Seconds`); never from 120 s on.
- `canonicalJson` does not tell `[undefined]` from `[]`, nor a non-finite number from null
  (`UncleanCollisions`). `CanonicalIff` states what it does tell apart, for all values.
- `wrap` gives one line more than needed for a paragraph that ends with a space after a word too
  wide for the line (`OptimalIff`, `TrailingSpaceCosts`).
- Without a footer the band of the last phase is too short for its rows unless the steps leave at
  least 8 px below the last row (`BandHoldsPhase`): too short for every diagram that ends with a
  message (`LastBandTooShort`).
- `seat-map-client.tsx:221-253` runs hold and release requests side by side. When the release of a
  seat is answered before its hold, the seat stays in `heldIds` while it is not selected, and cannot
  be clicked (`LateGrant`). `Settled` states what the answers must keep for that not to happen, and
  when `heldIds` then is the selection.
- `Generate` signs what `json.Marshal` writes, which is not always read back as the same claims
  (invalid UTF-8 is replaced). Such a token is accepted with the changed claims (`ChangedClaims`);
  `AcceptedWasIssuedIff` is the exact condition.
- The idempotency key is hashed from UTF-8, in which a lone surrogate of the subject is read as the
  replacement character, so such subjects can share a key (`LoneSurrogateCollides`); the arguments
  are not affected, since JSON escapes lone surrogates (`HashedDetermines`).
- Seat labels beyond row Z are not letters: `parseSeatLabel` reads back exactly the rows whose
  character happens to be one, in upper or lower case (`SeatLabelRoundTrip`, `RowsPastZ`), and rows
  65536 apart share their labels (`SeatLabelsCollideIff`).

## Model

| member | source | states |
|---|---|---|
| `TokenExchange.Exchanger.Begin` | services/mcp-service/src/exchange.ts:68-77 | before its first await a call returns the cached token or misses, and changes the map as `Lookup` says |
| `TokenExchange.Exchanger.Finish` | services/mcp-service/src/exchange.ts:120-131 | after its last await a call inserts the new entry, evicts as `Insert` says, and returns the exchanged token |
| `TokenExchange.LookupKeys` | services/mcp-service/src/exchange.ts:69-77 | a hit moves its key to the end of the iteration order, a stale entry is removed, and no entry is made up |
| `TokenExchange.InsertKeys` | services/mcp-service/src/exchange.ts:124-130 | an overwrite keeps its place, a new key goes last, and only the first key is dropped when the bound is passed |
| `TokenExchange.KeyDetermines` | services/mcp-service/src/exchange.ts:69-69 | with digests of one length, cache keys are equal iff digest and scope are |
| `TokenExchangeRuns.HitIff` | services/mcp-service/src/exchange.ts:4-11 | in every interleaving a cached key stands for the latest reply for the same subject and scope, and a call gets that reply's token iff it is less than 60 s old and both expiries are more than 30 s away |
| `TokenExchangeRuns.RevokedWithinAMinute` | services/mcp-service/src/exchange.ts:6-11 | once no exchange for a subject succeeds after time r, no call at or after r + 60 s returns a token for it |
| `TokenExchangeRuns.FailuresLeaveNoTrace` | services/mcp-service/src/exchange.ts:98-118 | the cache after any run is that of the same run without its failed exchanges |
| `TokenExchangeRuns.LastTouchMeaning` | services/mcp-service/src/exchange.ts:65-75 | the last touch of a key is the latest hit on it or insertion of it while absent |
| `TokenExchangeRuns.OrderedByLastTouch` | services/mcp-service/src/exchange.ts:65-130 | in every interleaving the cache never exceeds its bound, has no key twice, and iterates in the order of last touch |
| `TokenExchangeRuns.EvictsLeastRecentlyTouched` | services/mcp-service/src/exchange.ts:128-130 | a reply evicts at most one entry, the least recently touched of all, and keeps the new one whenever the capacity is at least one |
| `TokenExchangeRuns.SequentialIsValid` | services/mcp-service/src/exchange.ts:68-132 | calls made back to back are one of the interleavings |
| `TokenExchangeRuns.KeysAreMostRecent` | services/mcp-service/src/exchange.ts:66-131 | after back-to-back calls whose exchanges succeed, the keys in iteration order are exactly the last `maxEntries` distinct keys requested, oldest first, whatever the times and replies |
| `TokenExchangeRuns.AsksAreMostRecent` | services/mcp-service/src/exchange.ts:66-131 | with digests of one length and no collision among the subjects at hand, the cached entries are those of the last `maxEntries` distinct pairs of subject and scope, and a pair asked for is cached iff it is one of them |
| `TokenExchangeRuns.LargerCacheHoldsMore` | services/mcp-service/src/exchange.ts:59-66 | a larger capacity serving the same calls always ends with the smaller one's keys |
| `Recency.ByLatestUseMeaning` | services/mcp-service/src/exchange.ts:65-66 | the reference order lists the used keys once each, by the index of their latest use |
| `CanonicalJson.CanonicalIff` | services/mcp-service/src/idempotency.ts:4-13 | for all values: canonical texts are equal iff the values are, up to member order, undefined members, non-finite numbers as null and `[undefined]` as empty |
| `CanonicalJson.CanonicalIffClean` | services/mcp-service/src/idempotency.ts:3-13 | without undefined elements and non-finite numbers: iff equal up to member order and undefined members, at every depth |
| `CanonicalJson.UncleanCollisions` | services/mcp-service/src/idempotency.ts:5-12 | the two kinds of values outside that on which texts collide |
| `CanonicalJson.EntriesIncreasing` | services/mcp-service/src/idempotency.ts:7-9 | the members printed are in strictly increasing key order by code unit |
| `CanonicalJson.EntriesMembers` | services/mcp-service/src/idempotency.ts:7-8 | and they are exactly the members that are not undefined |
| `CanonicalJson.PrintDelimited` | services/mcp-service/src/idempotency.ts:5-12 | a printed value followed by a delimiter is read back in one way only, with what follows it |
| `CanonicalJson.SamePrints` | services/mcp-service/src/idempotency.ts:5-12 | values that are the same up to that relation print alike |
| `JsonText.QuoteDelimited` | services/mcp-service/src/idempotency.ts:10-12 | a quoted string, control characters and lone surrogates escaped, determines the string and where it ends |
| `CanonicalJson.PrintExample` | services/mcp-service/src/idempotency.ts:5-12 | a small object and the text it prints as |
| `KeyOrder.IncreasingUnique` | services/mcp-service/src/idempotency.ts:9-9 | a set of keys has one sorted listing, whatever the sorting algorithm |
| `KeyOrder.LessMeaning` | services/mcp-service/src/idempotency.ts:9-9 | the key order: at the first place where two keys differ, the lower code unit or the end comes first |
| `CanonicalJson.PrintLiterals` | services/mcp-service/src/idempotency.ts:5-6 | the literals, and null for a number that is not finite |
| `IdempotencyKey.PreimageDetermines` | services/mcp-service/src/idempotency.ts:33-41 | the template string is equal iff subject, tool, arguments (up to sameness) and window are, for subjects containing anything |
| `IdempotencyKey.HashedDetermines` | services/mcp-service/src/idempotency.ts:39-42 | the UTF-8 bytes hashed are equal iff arguments (up to sameness) and window are, and subject and tool are once lone surrogates are replaced |
| `IdempotencyKey.HashedDeterminesPaired` | services/mcp-service/src/idempotency.ts:39-42 | the same with subject and tool equal themselves, when they hold no lone surrogate |
| `IdempotencyKey.LoneSurrogateCollides` | services/mcp-service/src/idempotency.ts:41-41 | two subjects whose bytes are the same |
| `Unicode.Utf8Iff` | services/mcp-service/src/idempotency.ts:40-41 | two strings have the same UTF-8 bytes iff they are equal once lone surrogates are replaced |
| `Unicode.EncodeMeaning` | services/mcp-service/src/idempotency.ts:40-41 | the bytes of a code point: as many as it needs, in the ranges of RFC 3629, and together its bits |
| `JsonText.QuotePlain` | services/mcp-service/src/idempotency.ts:10-12 | a quoted string holds no control character and no lone surrogate, whatever it quotes |
| `JsonText.EscapeMeaning` | services/mcp-service/src/idempotency.ts:10-12 | which code units are escaped and how |
| `IdempotencyKey.RepeatedCall` | services/mcp-service/src/idempotency.ts:25-31 | a repeated call hashes the same bytes iff it falls in the same window, so never 15 minutes or more later |
| `IdempotencyKey.WindowMeaning` | services/mcp-service/src/idempotency.ts:39-39 | a window is a quarter of an hour counted from the epoch |
| `IdempotencyKey.WindowWidth` | services/mcp-service/src/idempotency.ts:23-39 | instants 15 minutes or more apart are in different windows |
| `Wrap.WrapText` | docs/diagrams/awsdiagram.py:66-79 | the result is one block of lines for each newline-separated part of the text, in order and nothing else: a block keeps its part's words in order, its several-word lines fit, its lines are as few as any break allows plus one empty line exactly where a space ends the part after a too wide word, and a part without words is one empty line; so all words of the text are kept in order |
| `Wrap.ParagraphLines` | docs/diagrams/awsdiagram.py:69-78 | the lines of a paragraph are a break of all its words in order into lines that fit when they hold several words, of the least possible count, plus at most one blank line under an exact condition |
| `Wrap.GreedyOptimal` | docs/diagrams/awsdiagram.py:71-77 | no order-preserving break of the same words into fitting lines has fewer lines than the greedy one |
| `Wrap.LinesAreGroups` | docs/diagrams/awsdiagram.py:70-78 | the loop on text, with its `strip`, is the greedy grouping of the non-empty words |
| `Wrap.OptimalIff` | docs/diagrams/awsdiagram.py:66-79 | the line count is the least possible iff the paragraph does not end with a space after a too wide word |
| `Wrap.TrailingSpaceCosts` | docs/diagrams/awsdiagram.py:71-78 | a paragraph that takes one line too many |
| `Words.SplitOfJoin` | docs/diagrams/awsdiagram.py:71-72 | splitting a line at its spaces gives back the words it was joined from |
| `Words.JoinOfSplit` | docs/diagrams/awsdiagram.py:69-71 | joining what a text is split into gives the text back |
| `SequenceLayout.Place` | docs/diagrams/awsdiagram.py:262-298 | one step's row, the lines wrapped for it and the next free line, for every kind of step |
| `SequenceLayout.Build` | docs/diagrams/awsdiagram.py:254-322 | the loop lays the rows of all steps, every row holds its text, and there is one band per phase from its title to the next phase or the end |
| `SequenceLayout.RowsStacked` | docs/diagrams/awsdiagram.py:258-298 | with gaps that are not negative, rows are disjoint and in order, and a phase title stands 16 px below what precedes it |
| `SequenceLayout.RowsHoldText` | docs/diagrams/awsdiagram.py:262-293 | in every diagram a row is exactly as tall as the lines its text wraps to and their padding need, and the lines keep the words, are as few as they can be and fit what the step leaves: the two lifelines' distance less 26 px and at least 270 for a message, and likewise for a self call and a note |
| `SequenceLayout.RowsClear` | docs/diagrams/awsdiagram.py:262-298 | 16 px stay free above and 6 below every phase title, 6 above and 12 below a note, 4 above and below a branch |
| `SequenceLayout.LifelinesApart` | docs/diagrams/awsdiagram.py:225-226 | neighbouring lifelines stand the same distance apart |
| `SequenceLayout.RowsOfSteps` | docs/diagrams/awsdiagram.py:260-298 | every step but a gap has exactly one row, in step order |
| `SequenceLayout.BandsDisjoint` | docs/diagrams/awsdiagram.py:317-322 | phase bands are pairwise disjoint and in order, with 2 px from each to the next |
| `SequenceLayout.BandHoldsPhase` | docs/diagrams/awsdiagram.py:299-322 | a band holds every row of its phase iff the phase is not the last, or there is a footer, or at least 8 px are left below the last row |
| `SequenceLayout.LastBandTooShort` | docs/diagrams/awsdiagram.py:299-322 | without a footer the last band never holds the rows of a phase that ends with a message |
| `Retry.ProcessMessage` | services/attendance-service/internal/kafka/consumer.go:164-198 | the handler runs at most n + 1 times, the message is handled iff a first success comes in time, a cancelled wait ends the attempts at once and nothing else does before the last, and the k-th wait is in [d, 1.5 d) for d the capped doubled delay; the jitter bound is positive |
| `Retry.TotalWait` | services/attendance-service/internal/kafka/consumer.go:27-31 | with the shipped constants the waits of a message start at 0.5, 1 and 2 s and add up to less than 5.25 s |
| `Retry.DelayDoubles` | services/attendance-service/internal/kafka/consumer.go:176-186 | doubling the capped delay and capping again is the capped doubled delay |
| `OrderConsumer.Consumer.Session` | services/attendance-service/internal/kafka/consumer.go:129-162 | a session reads the messages from the committed offset until cancellation; each is handled iff it decodes and its handler succeeds on one of four attempts before a cancelled wait, dead-lettered iff not and the topic takes it, and the committed offset ends past the last message whose commit is stored; the session is also a run of the protocol |
| `OrderConsumer.Consumer.OneMessage` | services/attendance-service/internal/kafka/consumer.go:138-161 | one message: handled iff its handler takes it, dead iff not and the dead-letter topic takes it, committed iff either happened and the commit is stored |
| `OrderConsumer.CommittedOverMeans` | services/attendance-service/internal/kafka/consumer.go:147-160 | whatever a session commits over unresolved was refused by the handler and by the dead-letter topic |
| `OrderConsumer.LeadsExtendsRun` | services/attendance-service/internal/kafka/consumer.go:129-162 | sessions chain into runs across stops and restarts |
| `OrderConsumer.AlwaysConsistent` | services/attendance-service/internal/kafka/consumer.go:138-160 | in every reachable state the message in hand is the last one read and is not yet committed |
| `OrderConsumer.LostIff` | services/attendance-service/internal/kafka/consumer.go:152-160 | in every run an unresolved message is below the committed offset iff the dead-letter topic refused it and a later message of that session was then committed |
| `OrderConsumer.AtLeastOnce` | services/attendance-service/internal/kafka/consumer.go:147-160 | if no dead-letter publish fails, everything below the committed offset was handled or dead-lettered, across failures, cancellation and crashes |
| `OrderConsumer.LossExample` | services/attendance-service/internal/kafka/consumer.go:152-155 | a run in which a refused message is committed over |
| `OrderConsumer.LostForGood` | services/attendance-service/internal/kafka/consumer.go:152-160 | such a message stays unresolved whatever follows |
| `OrderConsumer.RedeliveredOtherwise` | services/attendance-service/internal/kafka/consumer.go:154-154 | any other unresolved message is read again: the next session starts at or below it |
| `Base64Url.RoundTrip` | services/attendance-service/internal/qr/token.go:57-83 | base64url decoding inverts encoding on every byte string, and no encoding contains a dot |
| `Base64Url.GroupsAreBits` | services/attendance-service/internal/qr/token.go:57-59 | three bytes and their four letters are the same 24 bits, most significant first |
| `Base64Url.DecodesIff` | services/attendance-service/internal/qr/token.go:74-86 | decoding fails exactly on a byte outside the alphabet that is no line break, or on a single letter left over |
| `QrToken.VerifyOwn` | services/attendance-service/internal/qr/token.go:49-98 | a generated token verifies to what the JSON codec makes of its claims, up to and including that expiry, is expired at every later time, and is malformed if the codec cannot read it |
| `QrToken.VerifyGenerated` | services/attendance-service/internal/qr/token.go:49-98 | for claims that survive the codec: accepted as they are up to and including their expiry, expired at every later time |
| `QrToken.AcceptedWasSigned` | services/attendance-service/internal/qr/token.go:64-98 | under an idealised MAC every accepted token carries what the codec makes of claims once passed to `Generate`, not yet expired |
| `QrToken.AcceptedWasIssuedIff` | services/attendance-service/internal/qr/token.go:51-98 | under that MAC only issued claims are ever accepted iff what the codec makes of issued claims is issued too; so if all issued claims survive it |
| `QrToken.ChangedClaims` | services/attendance-service/internal/qr/token.go:51-98 | a genuine token of claims the codec changes is accepted with the changed claims |
| `QrToken.GenerateInjective` | services/attendance-service/internal/qr/token.go:51-62 | equal tokens carry equal claims, when both survive the codec |
| `QrToken.VerifyCases` | services/attendance-service/internal/qr/token.go:64-98 | for every token split at its first dot: invalid iff the signature decodes to other bytes than the MAC, expired iff it is the MAC and the claims' expiry has passed, accepted with the claims iff it has not, malformed otherwise |
| `QrToken.OtherSignature` | services/attendance-service/internal/qr/token.go:75-81 | a token with the signature of other bytes is invalid at every time |
| `UserIdSignature.MessageDetermines` | services/attendance-service/internal/security/user_id_signature.go:58-60 | the signed message determines user id and minute, even if the id contains the separator |
| `UserIdSignature.ValidIff` | services/attendance-service/internal/security/user_id_signature.go:33-56 | every signature, user and time: accepted iff there is no key, or neither is empty and the signature is the tag of this user and this minute or the one before |
| `UserIdSignature.NothingMissing` | services/attendance-service/internal/security/user_id_signature.go:38-44 | with a key an empty user or signature is never accepted |
| `UserIdSignature.AcceptedIff` | services/attendance-service/internal/security/user_id_signature.go:33-56 | a computed signature is accepted iff there is no key, or it is not empty and was made for this non-empty user in this minute or the one before |
| `UserIdSignature.ReplayWindow` | services/attendance-service/internal/security/user_id_signature.go:46-55 | a signature is accepted for 60 s and never from 120 s on |
| `UserIdSignature.AcceptedAfter119Seconds` | services/attendance-service/internal/security/user_id_signature.go:11-12 | a signature that outlives a minute |
| `Federation.BuildRepresentationGroups` | services/attendance-service/internal/graphql/federation.go:80-101 | the map holds the group of every type named, in order, and nothing else |
| `Federation.GroupMeaning` | services/attendance-service/internal/graphql/federation.go:85-98 | a group holds exactly the representations of its type with their places, ascending |
| `Federation.GroupsPartition` | services/attendance-service/internal/graphql/federation.go:85-98 | no place is in two groups or twice in one |
| `Federation.RunTask` | services/attendance-service/internal/graphql/federation.go:121-129 | an entity's goroutine writes its own slot only, and only once |
| `Federation.ResolveEntities` | services/attendance-service/internal/graphql/federation.go:39-64 | under every scheduling of the goroutines place i ends with the resolver's own result for representation i, and nil exactly where it errs or has no type name |
| `SeatSelection.SeatMap.ToggleSeat` | services/client/components/seat-map-client.tsx:168-194 | a click flips the seat iff it is rendered as selected, or is available, not held and the order has room; no other seat changes; on a current render the limit is kept |
| `SeatSelection.SeatMap.ExpiryEffect` | services/client/components/seat-map-client.tsx:200-209 | an expired hold clears the selection, the held seats and the record of the last run |
| `SeatSelection.SeatMap.SelectionEffect` | services/client/components/seat-map-client.tsx:211-256 | added seats are held and dropped seats released; replaying all commands since the last expiry gives exactly `prevSelectedRef`, which is the rendered selection |
| `SeatSelection.SeatMap.HoldAnswered` | services/client/components/seat-map-client.tsx:221-242 | the answer to an issued hold: a failed one takes its seats out of the selection, a granted one records them, and `heldIds` stays what the answers so far, in order of arrival, make it |
| `SeatSelection.SeatMap.ReleaseAnswered` | services/client/components/seat-map-client.tsx:245-253 | the answer to an issued release: its seats are no longer recorded, and `heldIds` stays what the answers make it |
| `SeatSelection.SeatMap.CommandsAlternate` | services/client/components/seat-map-client.tsx:211-256 | in every state of the component, reverts of failed holds included, each seat's commands since the last expiry alternate, starting with a hold, and a seat is in `prevSelectedRef` iff an odd number named it |
| `SeatSelection.SeatMap.CommandsFromClicks` | services/client/components/seat-map-client.tsx:168-256 | in every run, each seat a command names was added by a click at which it was available, not held and not selected, with room left in the order |
| `SeatSelection.ResetKeepsWaiting` | services/client/components/seat-map-client.tsx:200-209 | an expiry loses no answer: commands still open go on waiting for theirs |
| `SeatSelection.SeatMap.Settled` | services/client/components/seat-map-client.tsx:200-253 | once all commands are answered, each seat's in the order issued and with no answer from before an expiry: `heldIds` is within the selection, and equal to it iff every selected seat was granted by its latest hold |
| `SeatSelection.HeldInOrder` | services/client/components/seat-map-client.tsx:221-253 | the same for one seat: it counts as held iff it is selected and its latest hold was granted it |
| `SeatSelection.HeldMeaning` | services/client/components/seat-map-client.tsx:232-252 | for answers in any order: a seat counts as held iff some answer granted it and no later one freed it |
| `SeatSelection.LateGrant` | services/client/components/seat-map-client.tsx:221-253 | a run in which a release is answered before the hold, and the seat stays held, unselected and not selectable |
| `SeatSelection.ProperAlternates` | services/client/components/seat-map-client.tsx:215-250 | for all command lists: each command holds only what is not held or releases only what is, and names a seat, iff all name seats and each seat's commands alternate, starting with a hold |
| `SeatSelection.MarksOfReplay` | services/client/components/seat-map-client.tsx:215-250 | for such commands, a seat is held after replaying them iff it was named an odd number of times |
| `SeatGrid.BuildGrid` | services/client/components/seat-map-client.tsx:261-296 | a general-admission section shows every seat under its own id, numbered from 1; any other the first min(seats, rows * columns), seat k in row r and column s with k = r * columns + s; no row is empty and all but the last are full |
| `SeatGrid.BuildRow` | services/client/components/seat-map-client.tsx:281-294 | one row, cut short where the seats end |
| `SeatGrid.SeatLabelRoundTrip` | services/client/components/seat-map-client.tsx:49-59 | a seated label is read back to its row character and number iff that character is a letter, so in the first 26 rows |
| `SeatGrid.GaLabelRoundTrip` | services/client/components/seat-map-client.tsx:49-59 | every general-admission label is read back |
| `SeatGrid.CellLabelRoundTrip` | services/client/components/seat-map-client.tsx:49-59 | the label of every seat shown is read back to its number, or to its row and column in the first 26 rows |
| `SeatGrid.ParseIff` | services/client/components/seat-map-client.tsx:49-59 | for every text: the letters and the number iff without hyphens it is letters followed by digits, else an empty row and 0 |
| `SeatGrid.HyphensIgnored` | services/client/components/seat-map-client.tsx:51-52 | a hyphen anywhere makes no difference |
| `SeatGrid.RowsPastZ` | services/client/components/seat-map-client.tsx:289-289 | the first row that is not read back, and the first that is read in lower case |
| `SeatGrid.SeatLabelsCollideIff` | services/client/components/seat-map-client.tsx:289-289 | two seated labels are equal iff their rows agree modulo 65536 and their columns agree |
| `SeatGrid.LabelsDistinct` | services/client/components/seat-map-client.tsx:284-291 | labels are pairwise distinct in a general-admission section and in any grid of at most 65536 rows |
| `StepUp.ChallengeMeaning` | services/mcp-service/src/scopes.ts:42-55 | a challenge is raised iff the request is authenticated and lacks a required scope, and lists what is held and then what is required, in order of first occurrence and without repetition |
| `StepUp.ScopeIsFor` | services/mcp-service/src/scopes.ts:8-40 | each scope is required by exactly the tools named, the default payment by two |
| `StepUp.ExchangedScopesAreHeld` | services/mcp-service/src/upstream.ts:126-130 | the exchange's scope parameter lists the tool's scopes, and when no challenge is raised all of them are already held |
| `StepUp.HeldGrows` | services/mcp-service/src/scopes.ts:42-55 | when each re-consent grants the challenge, held scopes only grow and a called tool has its scopes |
| `StepUp.NeverChallengedTwice` | services/mcp-service/src/scopes.ts:48-55 | no tool is challenged twice |
| `StepUp.ChallengesBounded` | services/mcp-service/src/scopes.ts:8-55 | challenges are never more than the tool scopes missing at first |
| `ServerApi.Call` | services/client/lib/api.ts:70-113 | of at most seven attempts, every one but the last was a read that was unreachable, answered 429 or a server error, and the last was not or was the seventh; its reply is the result; each wait is the header's seconds, else the time to its date, else 250 ms times the attempt, and never negative |
| `ServerApi.FirstEnd` | services/client/lib/api.ts:85-107 | the first attempt that must end the call, the seventh at the latest |
| `ServerApi.ParseRetryAfterMs` | services/client/lib/api.ts:27-38 | a Retry-After that is understood is never negative, and it is understood iff it counts seconds or is a date |

## Left out

- The reply bodies, status mapping and `ExchangeError` of the token exchange: every failure after the lookup is one event, which changes only the set of calls in flight.
- Infinite `expires_in`: JSON text can denote a number too large for a double; times here are finite reals.
- Values `canonicalJson` may meet outside JSON parts, undefined and non-finite numbers (functions, symbols, dates, objects with `toJSON`, sparse arrays).
- The SHA-256 digest, base64url form and slice of the idempotency key: only the bytes hashed are modelled.
- White space other than the space and the newline inside a paragraph given to `wrap`, which `strip` removes at line ends only.
- Drawing: positions across the page, colours, zones, lifelines, icons and SVG output; the layout keeps rows and bands only, with whole-pixel gaps.
- Several partitions, rebalances, log retention and transactions: the consumer is modelled on one partition with one member at a time.
- What the handler does with an order, and effects of a handler run that was cut off before it returned.
- Strength of HMAC and SHA-256; what the JSON codec makes of the claims, which is a parameter.
- The error list of entity resolution and its order, and types resolved in multi mode, of which there are none.
- React scheduling beyond queued updates, renders and effects; the order of seats within one command; countdown, polling and order forms.
- Request construction, caching options and response bodies of `serverApi`; what `parseInt` and `Date.parse` make of a header are parameters.
- The attendance service's repository and credentials, resolvers, middleware, gateways and the other services: their guarantees rest on stores and services outside the code modelled here, or they are one-branch mappings.
