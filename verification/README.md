# Meshtastic gateway: transmit, connection and bookkeeping proofs

A Dafny model of the parts of the gateway that keep state or make promises over whole
runs: what goes on the air and how often, who may be addressed, how one radio link is
kept alive by several threads, and the bookkeeping around it. `dafny verify
dfyconfig.toml` checks all of it.

| file | models |
|---|---|
| `Prelude.dfy` | options, Python's `strip`, `str(int)` and `int(str)` |
| `Window.dfy`, `RateLimit.dfy`, `RateRules.dfy` | the process-wide transmit limiter: `TransmitLimiter` prunes its buckets, `Gate` decides from the record of all admissions |
| `CodePoints.dfy` | text as JSON can deliver it, lone surrogates included |
| `Utf8.dfy`, `Chunking.dfy`, `ChunkingProperties.dfy`, `ChunkLayout.dfy`, `ReplyParts.dfy` | splitting a reply into packets: word packing, the byte-level hard split, the five-part cap |
| `Channels.dfy`, `ChannelSpec.dfy`, `Policy.dfy` | channel allowlists, names resolved against the radio's table, and what the send tool may address |
| `Mention.dfy`, `Bridge.dfy` | mentions, the reply decision, and chat ids |
| `Outbound.dfy`, `Air.dfy` | the send tool and multi-part replies over one limiter and one radio: as calls, and as threads whose admission and transmission are separate steps |
| `Connection.dfy`, `ConnectionRuns.dfy` | the connection manager's locked sections, and every interleaving of clients, supervisors and losses |
| `Knowledge.dfy` | the packet log and the per-node counters kept beside it in separately locked steps |
| `Ipc.dfy` | the sidecar's request window and the waiters that match results to requests |
| `Changelog.dfy`, `ChangelogProperties.dfy`, `ChangelogRules.dfy` | extracting and inserting changelog sections |
| `Scrub.dfy` | the literal layer of the output scrubber |

Objects that the program updates in place are classes. Each of their methods is proved
against a function of the old state, and the promises are lemmas about that function and
about runs of it. Where threads interleave, a run is any sequence of the steps that the
program takes without letting go of a lock, or between two suspension points.

Time is a real number that callers pass in, and never decreases where a monotonic clock
is read under a lock. Bytes are 0 to 255.
What the radio library, the allowlist setting or another thread may do is a parameter or
a choice of step. The text of a message may hold lone surrogates; every other text is a
sequence of Unicode scalar values.

## Where the code does not do what it promises

The model follows the code. In these places the promise as written is false, and the
members named say exactly when it holds:

- A limit below one can pass `from_env`, since 0.5 is truncated to 0, and then a check
  may fail with an IndexError: `RateLimit.FaultNeedsALimitBelowOne`.
- The limiter is charged before the text is encoded, and reads an interface that can be
  lost in between two reads: a lone surrogate, or such a loss, spends a token and sends
  nothing: `Outbound.Radio.SendText`, `Air.AtRestCallsAreAdmissions`,
  `Air.SurrogateSpendsAToken`.
- Any tool call can set `_continuation` and skip the cooldown:
  `RateLimit.ContinuationsSkipOnlyTheCooldown`.
- A supervisor past its guards can open the link after disconnect has returned, once:
  `ConnectionRuns.NoLateOpenExactly`, `ConnectionRuns.LateOpenExactly`, with a run in
  `ConnectionRuns.LateOpenHappens`.
- A forwarded request loses its answer when its id is forwarded again, or when a timed-out
  request of that id cleans up: `Ipc.AnsweredExactly`, `Ipc.ReuseLosesTheAnswer`,
  with runs in `Ipc.ReusedIdLosesAnAnswer` and `Ipc.TimeoutTakesAnAnswer`.
- A secret that is part of the word "redacted", such as "red", shows again in what
  replaces it: `Scrub.DistinctIsExact`.
- A heading for a longer version keeps a shorter version's stub from being inserted, and
  bare hashes at the end of a changelog swallow an appended stub:
  `ChangelogProperties.EnsuredHasSection`, `ChangelogProperties.InsertionIsExact`.
- The hard split of the chunker does not end when one character is longer than the limit:
  `ChunkingProperties.SplitEndsExactly`. The gateway's own 200 bytes are room for any character.
- A sender whose id begins with "ch:" would be answered on a channel:
  `Bridge.ReplyReturnsToSender`, `Bridge.ConversationsKeepApart`.
- A channel named "all", like a number or with a comma, cannot be put on an allowlist so
  that it is read back:
  `ChannelSpec.WrittenReadsBack`.
- A failure of the radio library with an empty message gives an empty error, which a
  reply takes for success although sendData was called: `Outbound.Radio.SendText`.
  Success of a reply is stated as sendData having been called for every part.
- The docstring at `meshtastic_hermes/policy.py:246-249` lets a plaintext direct message
  through the broadcast rules; the code refuses it: `Policy.RejectedExactly`.
- `docs/usage.md:511-513` describes switches that `meshtastic_hermes/policy.py:59-68` no
  longer reads; the model has none.

## Model

| member | source | states |
|---|---|---|
| `RateLimit.TransmitLimiter.constructor` | meshtastic_hermes/rate_limit.py:187-197 | A new limiter has admitted nothing |
| `RateLimit.TransmitLimiter.Prune` | meshtastic_hermes/rate_limit.py:205-208 | One bucket is cut down to the stamps that are still live in the full record of its admissions; no other bucket changes |
| `RateLimit.TransmitLimiter.ChargeBuckets` | meshtastic_hermes/rate_limit.py:306-309 | An admission is charged to the shared bucket, to its destination's bucket and to its last send, together |
| `RateLimit.TransmitLimiter.Check` | meshtastic_hermes/rate_limit.py:234-309 | With pruned buckets and stored last sends, the outcome, its scope and its exact wait are those that `Gate` gives on the record of every packet ever admitted; a refusal leaves that record alone, an admission adds one entry |
| `RateRules.DirectMessageIsDecided` | meshtastic_hermes/rate_limit.py:234-309 | A packet to a node is admitted exactly when the cooldown is over or skipped, fewer than max_sends packets went out in the last 60 s, and fewer than max_dm of them to that node; otherwise the first of these that fails is the scope named |
| `RateRules.BroadcastIsDecided` | meshtastic_hermes/rate_limit.py:234-309 | The same for a broadcast, its channel and max_channel; a missing channel counts as channel 0 |
| `Window.PruningIsInvisible` | meshtastic_hermes/rate_limit.py:205-217 | Stamps dropped at an earlier time are not missed at any later one: pruned and full record have the same live stamps |
| `Window.LiveIsSuffix` | meshtastic_hermes/rate_limit.py:205-217 | On an ordered record the live stamps are its tail, so the one `limit` places from the end is the same in the pruned list |
| `RateLimit.RefusalsLeaveNoTrace` | meshtastic_hermes/rate_limit.py:243-247 | A refused request can be struck from any run without changing the record, hence without changing any later answer |
| `RateLimit.RunsStayWithinLimits` | meshtastic_hermes/rate_limit.py:278-309 | In every run with a nondecreasing clock, an interval no longer than n windows of 60 s holds at most n times the limit: of all packets, of one channel's, of one peer's |
| `RateRules.NodesStayWithinLimits` | meshtastic_hermes/rate_limit.py:278-309 | In every run whose max_dm is never above the limit, n minutes hold at most n times the limit to one node |
| `RateRules.ChannelsStayWithinLimits` | meshtastic_hermes/rate_limit.py:278-309 | In every run whose max_channel is never above the limit, the same for the broadcasts on one channel |
| `RateRules.AllStayWithinLimits` | meshtastic_hermes/rate_limit.py:278-309 | In every run whose max_sends is never above the limit, the same for all packets |
| `Window.OneWindowBound` | meshtastic_hermes/rate_limit.py:205-208 | If each stamp was taken while fewer than `limit` earlier ones were live, no half-open minute holds more than `limit` |
| `Window.ManyWindowsBound` | meshtastic_hermes/rate_limit.py:205-208 | The same for n minutes and n times the limit |
| `RateLimit.TurnsAreSpaced` | meshtastic_hermes/rate_limit.py:264-276 | In every run, an admitted packet that is not charged as a continuation comes at least the cooldown after every earlier one to its destination, continuations included |
| `RateLimit.ContinuationsSkipOnlyTheCooldown` | meshtastic_hermes/rate_limit.py:264-276 | A packet charged as a continuation meets the same decision as one that is not, exactly unless that one is refused by the cooldown |
| `RateLimit.WaitIsExact` | meshtastic_hermes/rate_limit.py:210-217 | A refusal's wait r is positive and at most a window (or the cooldown); with no admission in between, the same packet is refused by the same gate at every time before now + r, with the rest of the wait, and that gate no longer refuses from now + r on |
| `RateLimit.FullUntilOldestExpires` | meshtastic_hermes/rate_limit.py:210-217 | A window is full exactly until its limit-th newest stamp expires, and that is the wait computed from a full pruned bucket |
| `RateLimit.Outcome.RetryAfter` | meshtastic_hermes/rate_limit.py:264-304 | The reported wait is within half a millisecond of the exact one |
| `RateLimit.FaultNeedsALimitBelowOne` | meshtastic_hermes/rate_limit.py:210-217 | The IndexError of `stamps[-limit]` can occur exactly when some limit is below one |
| `RateLimit.BucketsSeparateDestinations` | meshtastic_hermes/rate_limit.py:219-230 | Two calls share a bucket exactly when they address the same node id text, or the same channel without one |
| `RateLimit.OthersShareOnlyTheGlobalBucket` | meshtastic_hermes/rate_limit.py:219-309 | An admission to another destination leaves a decision as it was, unless it filled the shared window |
| `Utf8.DecodeOfEncode` | meshtastic_platform/adapter.py:98-106 | Decoding the UTF-8 of a text (RFC 3629, section 3) gives the text |
| `Utf8.EncodeOfDecode` | meshtastic_platform/adapter.py:98-106 | Bytes that decode are the encoding of what they decode to: no overlong forms, no surrogates |
| `Utf8.EncodingIsStandard` | meshtastic_platform/adapter.py:93-98 | Lead and tail bytes have the bit layout of RFC 3629, section 3, and hold the character's value |
| `Utf8.CutsFallBetweenChars` | meshtastic_platform/adapter.py:99-106 | A beginning of a text's bytes is valid UTF-8 exactly at the character boundaries: it encodes a beginning of the text |
| `Chunking.CutPiece` | meshtastic_platform/adapter.py:100-106 | Backing off from the byte limit stops at the longest beginning of the word that fits; it comes out empty exactly when the first character alone is too long |
| `Chunking.HardSplit` | meshtastic_platform/adapter.py:97-107 | The byte loop cuts an overlong word into its longest fitting beginnings, one after another |
| `Chunking.PackWord` | meshtastic_platform/adapter.py:89-110 | One turn of the word loop: what it sends off and what it leaves open |
| `Chunking.SplitText` | meshtastic_platform/adapter.py:81-112 | The loops compute `Chunks`, for every limit that leaves room for each single character |
| `ChunkingProperties.FourBytesAlwaysFit` | meshtastic_platform/adapter.py:99-107 | From four bytes on, the split ends on every text |
| `ChunkingProperties.WordGetsStuckExactly` | meshtastic_platform/adapter.py:97-107 | The hard split of a word comes to a remainder it cannot cut exactly when one character of the word is by itself longer than the limit |
| `ChunkingProperties.SplitEndsExactly` | meshtastic_platform/adapter.py:81-107 | So a text is split to its end exactly when no character of it, whitespace aside, is longer than the limit |
| `ChunkingProperties.ChunksAreSendable` | meshtastic_platform/adapter.py:81-112 | Every chunk is non-empty, within the limit in UTF-8, and has no whitespace at its ends |
| `ChunkingProperties.ChunksKeepText` | meshtastic_platform/adapter.py:81-112 | The chunks, run together and without whitespace, are the text without whitespace |
| `ChunkLayout.ChunksAreFewest` | meshtastic_platform/adapter.py:81-112 | The chunks lay the words of the text out greedily: words share a packet, joined by spaces, until the next word does not fit, and an overlong word is cut where its next character does not fit; no other layout of the same words, overlong words cut in any other way included, takes fewer packets |
| `ChunkLayout.PackIsOptimal` | meshtastic_platform/adapter.py:87-112 | The same from the middle of the loop, with an open chunk |
| `ChunkLayout.PiecesAreGreedy` | meshtastic_platform/adapter.py:97-107 | The pieces of an overlong word are the word, each fits, and none has room for the first character of the next |
| `ChunkLayout.PiecesAreFewest` | meshtastic_platform/adapter.py:97-107 | No cut of the word into pieces that fit has fewer of them |
| `ChunkLayout.WordsAreMaximal` | meshtastic_platform/adapter.py:89-89 | The words are the text's maximal stretches without whitespace, with whitespace between any two |
| `ReplyParts.MarkTruncated` | meshtastic_platform/adapter.py:961-965 | The mark goes after the longest beginning of the last part that leaves room for it |
| `ReplyParts.PlanParts` | meshtastic_platform/adapter.py:955-966 | A reply's parts are its chunks, or the first four and the marked fifth |
| `ReplyParts.PlanIsSendable` | meshtastic_platform/adapter.py:955-966 | At most five parts, each non-empty, of at most 200 bytes, and unchanged by being stripped again |
| `CodePoints.StrippedEncodable` | meshtastic_hermes/tools.py:104-200 | Stripping a text neither gives it a UTF-8 encoding nor takes it |
| `CodePoints.StripOfCodes` | meshtastic_hermes/tools.py:104-107 | On text without surrogates, stripping is the strip of character strings |
| `Outbound.Radio.SendText` | meshtastic_hermes/tools.py:55-212 | A call is charged exactly when text, policy, ack_timeout, interface and limiter let it through: one entry, under the node or the channel just authorized. Its sendData is then called, once and with the stripped text, exactly when that text has a UTF-8 encoding and the interface was not lost while it was read; otherwise the charge is spent and the answer has an error. Any other call is neither charged nor sent, and is told the first thing that was wrong with it: the rejection's code, or the limiter's scope and wait |
| `Outbound.ChargedToOwnBucket` | meshtastic_hermes/tools.py:142-146 | The limiter charges a packet to the bucket of its node, or of its channel when it is a broadcast |
| `Outbound.OwnBucketsKeepApart` | meshtastic_hermes/tools.py:142-146 | Two packets share a bucket exactly when they go to the same node, or are broadcasts on the same channel |
| `Outbound.PlayedOn` | meshtastic_hermes/tools.py:102-200 | Calls made one after another add up: what a sequence of calls leads to is what its second half leads to after its first |
| `Outbound.AuthorizedIsTarget` | meshtastic_platform/adapter.py:968-986 | Whatever the policy authorizes for a reply's arguments is the reply's own target |
| `Outbound.RepliesAreAuthorizedExactly` | meshtastic_platform/adapter.py:968-986 | A reply to a node with an id is always authorized; one to a channel exactly when the allowlist covers the channel |
| `Outbound.NodePartIsAdmittedExactly` | meshtastic_platform/adapter.py:968-986 | A part of a reply to a node is admitted exactly when an interface was seen and the limiter admits a direct message to that node |
| `Outbound.ChannelPartIsAdmittedExactly` | meshtastic_platform/adapter.py:968-986 | The same for a reply to a channel that is covered |
| `Outbound.Radio.SendPart` | meshtastic_platform/adapter.py:968-994 | One part of a reply: after whatever others send, sendData is called at most once, for this part and target; a failure means that the part was turned away, that it was charged and lost with the interface, or that the radio did not take it |
| `Outbound.Radio.Send` | meshtastic_platform/adapter.py:946-1014 | With any tool calls in between, everything charged and sent is exactly what the others' calls and the calls for the parts tried, in their order, lead to. The parts on the air are the first parts of the plan, in order, each to the reply's target, all but the first charged as continuations; at most one part is charged and lost; success means all of them; the reply stops early only at a part turned away or lost, or after one the radio failed to send; a text without UTF-8 raises before anything is charged |
| `Air.AdmissionsAreAccountedFor` | meshtastic_hermes/tools.py:55-200 | In every interleaving of concurrent senders, for every bucket: sendData calls made, packets lost and packets on their way are together the admissions |
| `Air.RecordIsOwn` | meshtastic_hermes/tools.py:142-146 | In each step, an admission enters the record under the packet's own node or channel, at the time it was asked for, as a continuation when it asked so or is a later part, and nothing else enters |
| `Air.AtRestCallsAreAdmissions` | meshtastic_hermes/tools.py:104-200 | With no packet on its way, sendData calls equal admissions, bucket by bucket, exactly when every admitted packet had a text with a UTF-8 encoding and an interface that stayed while it was read; the admissions without are the difference |
| `Air.LossesAreForeseen` | meshtastic_hermes/tools.py:104-200 | In every interleaving the packets lost, or on their way to be, are the admissions of such a text or with such an interface |
| `Air.SurrogateSpendsAToken` | meshtastic_hermes/tools.py:104-200 | A direct message whose text is one lone surrogate spends a token and sends nothing, with the radio up |
| `Air.RecordOfTheRun` | meshtastic_hermes/tools.py:142-160 | Whatever the interleaving, tool calls charged as continuations included, the limiter's record is the record of one run of requests |
| `Air.AirtimeIsBounded` | meshtastic_hermes/tools.py:142-160 | So in every interleaving, tool calls charged as continuations included, n minutes admit at most n times the limit, bucket by bucket |
| `Air.AirTurnsAreSpaced` | meshtastic_hermes/rate_limit.py:264-276 | And an admitted packet that is not charged as a continuation comes at least the cooldown after every earlier one to its destination |
| `Air.SendersStayInStep` | meshtastic_platform/adapter.py:988-1014 | In every interleaving, what was sent for a sender carries its first texts, in order, each to a destination the policy authorized for its arguments; success means that all went out |
| `Air.FailuresHaveCauses` | meshtastic_platform/adapter.py:988-1014 | In every interleaving a sender has failed exactly when one of its texts was turned away, lost or not taken by the radio, and succeeded exactly when none was and all went out |
| `Air.RepliesGoOutAsPrefixes` | meshtastic_platform/adapter.py:968-1014 | For a reply these are its first parts, unchanged, each to the reply's own target |
| `Channels.IndexTable` | meshtastic_hermes/gateway_bridge.py:231-241 | The loop over the rows finds, for every name, the first row that bears it, and the first unnamed primary |
| `Channels.ResolveChannelSpec` | meshtastic_hermes/gateway_bridge.py:199-263 | The loops compute `Resolve`: which slots an allowlist opens and where each name leads |
| `Channels.LookupFindsTheRow` | meshtastic_hermes/gateway_bridge.py:242-271 | A name leads to a slot exactly when that is the slot of the first row of that name, or, for "primary" and "longfast" in any casing that no row bears, of the first row without a name that has role 1 or PRIMARY |
| `Channels.LookupMoves` | meshtastic_hermes/gateway_bridge.py:226-263 | Reordering rows and renumbering slots injectively moves what a name leads to along with the slots |
| `ChannelSpec.ParseChannelSpec` | meshtastic_hermes/gateway_bridge.py:151-191 | The loop over the comma-separated parts computes `Parsed`, wildcard and empty settings included |
| `ChannelSpec.PartsAreReadOnce` | meshtastic_hermes/gateway_bridge.py:178-191 | A part is an index exactly when int() takes it; every other non-blank part is a name, trimmed; no name is listed twice |
| `Prelude.NumeralsAreParsed` | meshtastic_hermes/gateway_bridge.py:183-185 | What int() takes, a sign and whitespace aside, is digits with single underscores between them |
| `ChannelSpec.WrittenReadsBack` | meshtastic_hermes/gateway_bridge.py:151-191 | Any names and indices written with commas read back as themselves exactly when there are some, each name is listed once, is trimmed, has no comma and is no number to int(), and what is written is not "all" in some casing |
| `ChannelSpec.ParsedIsSpellable` | meshtastic_hermes/gateway_bridge.py:178-191 | Every name read from a text is one that can be written again |
| `Policy.AcceptedExactly` | meshtastic_hermes/policy.py:237-347 | A send is accepted exactly when it is a PKI message to a node the call gives, or a broadcast on a channel the call itself names that the allowlist or the wildcard covers |
| `Policy.BroadcastAcceptedExactly` | meshtastic_hermes/policy.py:289-347 | The same for the broadcast branch alone |
| `Policy.AskedIsNamed` | meshtastic_hermes/policy.py:293-315 | The channel asked for is the slot of the row the given name stands for, or the given index; there is no default |
| `Policy.IndexIsCoerced` | meshtastic_hermes/policy.py:221-234 | A channel index is taken exactly when int() makes a number of it that is not negative; a bool is none |
| `Policy.RejectedExactly` | meshtastic_hermes/policy.py:237-367 | A call is turned away with a code exactly when that is the first reason against it: each of the ten codes has its condition on arguments, allowlist and table |
| `Policy.PrimaryNamedIsListed` | meshtastic_hermes/policy.py:191-218 | The primary slot passes its extra check exactly when its index, or a name that leads to it, is in the allowlist |
| `Policy.PrimaryOnlyWhenListed` | meshtastic_hermes/policy.py:180-347 | An accepted broadcast on the primary slot is listed: the wildcard never opens it |
| `Policy.ResolveMoves` | meshtastic_hermes/gateway_bridge.py:226-263 | Renumbering the slots renumbers what a list of names resolves to, name by name |
| `Policy.BroadcastByNameMoves` | meshtastic_hermes/policy.py:289-367 | A broadcast addressed by name is accepted on the slot its channel moved to, or turned away with the same code |
| `Mention.CandidatesAreNames` | meshtastic_hermes/gateway_bridge.py:302-322 | The identifiers tried are exactly the trimmed, non-blank names and the node id with and without its "!" |
| `Mention.BestMention` | meshtastic_hermes/gateway_bridge.py:352-378 | The loop finds the longest identifier that opens the body before a separator or the end |
| `Mention.MatchMention` | meshtastic_hermes/gateway_bridge.py:325-384 | The match fails exactly when no known identifier opens the text; otherwise it leaves what follows the longest one |
| `Mention.OrderOfNamesIsIrrelevant` | meshtastic_hermes/gateway_bridge.py:325-384 | Two identities with the same identifiers, in whatever fields or order, get the same answer |
| `Mention.RemainderIsAPiece` | meshtastic_hermes/gateway_bridge.py:382-384 | The remainder is one trimmed piece of the text, with only whitespace after it there |
| `Mention.MatchIsExact` | meshtastic_hermes/gateway_bridge.py:325-384 | The text of a mention is whitespace with at most one "@" in it, the longest name in whatever casing, all blanks, tabs, colons and commas that follow, whitespace, the remainder, and whitespace |
| `Bridge.ApplyMentionGate` | meshtastic_hermes/gateway_bridge.py:425-471 | A direct message passes unchanged; a channel message passes exactly when it is addressed to this node, without the mention; an unknown identity lets no channel message through |
| `Bridge.ProcessInbound` | meshtastic_hermes/gateway_bridge.py:39-542 | What is not a readable text from somebody else is ignored. A reply is made exactly to a direct message, or on an open channel to a message that is addressed when it has to be; a reply to a broadcast goes out on the channel the packet names, which the allowlist opens; text and chat id are as they should be |
| `Bridge.ReplyReturnsToSender` | meshtastic_hermes/gateway_bridge.py:102-119 | A chat id leads back to where the message came from, exactly unless a sender id itself begins with "ch:" |
| `Bridge.ChatIdIsRead` | meshtastic_hermes/gateway_bridge.py:107-119 | A chat id that begins with "ch:" leads to that channel, to channel 0 when no number follows; any other to the node it names |
| `Bridge.ConversationsKeepApart` | meshtastic_hermes/gateway_bridge.py:102-119 | Two messages share a chat id exactly when they come from the same node, or on the same channel, or one is a direct message from a node whose id spells the other's channel |
| `Bridge.InboundFrom` | meshtastic_hermes/gateway_bridge.py:39-73 | None exactly without a decoded part, on another port, from ourselves, or without text; otherwise channel, sender, text and addressee are the packet's own, by their fallbacks |
| `Bridge.NumbersKeepApart` | meshtastic_hermes/gateway_bridge.py:27-36 | Nodes with different numbers have different ids, and none of those ids looks like a channel |
| `Bridge.NumberedIdForm` | meshtastic_hermes/gateway_bridge.py:27-36 | The id of a numbered node is "!" and eight lower-case hexadecimal digits, more only for a number that needs them |
| `Connection.ConnectionManager.CloseLocked` | meshtastic_hermes/connection.py:466-486 | close() is called on the current and on every stale interface, and none is kept |
| `Connection.ConnectionManager.OpenLocked` | meshtastic_hermes/connection.py:373-393 | Everything earlier is closed before a new interface becomes current |
| `Connection.ConnectionManager.OnConnectionLost` | meshtastic_hermes/connection.py:428-452 | A loss of an older interface only sets it aside; any other drops the current one and sets it aside, once |
| `Connection.ConnectionManager.RecordFailure` | meshtastic_hermes/connection.py:352-371 | One more failure; the slow cadence starts at the threshold and stays |
| `Connection.ConnectionManager.RecordSuccess` | meshtastic_hermes/connection.py:342-350 | A success clears the failures, the slow cadence and the hard error |
| `Connection.ConnectionManager.DisconnectLocked` | meshtastic_hermes/connection.py:454-464 | All interfaces closed, the account cleared |
| `Connection.ConnectionManager.Connect` | meshtastic_hermes/connection.py:298-338 | Undisturbed, connect clears the account before its one attempt, which then counts as a success, as the first failure, or as a hard error when the library is missing |
| `Connection.ConnectionManager.CurrentState` | meshtastic_hermes/connection.py:497-513 | Connected exactly with an interface; connecting exactly without one while it is wanted and nothing has gone wrong for good |
| `Connection.FixedThreshold` | meshtastic_hermes/connection.py:352-371 | With one threshold of at least one throughout, some failure reached it exactly when the trailing run of failures is that long |
| `ConnectionRuns.RunsStayTidy` | meshtastic_hermes/connection.py:373-486 | In every interleaving of connects, disconnects, supervisors and losses: every interface but the newest was passed to close(); the newest is current, stale or closed; the current one is neither stale nor closed |
| `ConnectionRuns.NewOnlyAfterOldClosed` | meshtastic_hermes/connection.py:373-393 | A new interface is built only once all earlier ones were passed to close() |
| `ConnectionRuns.CurrentStaysExactly` | meshtastic_hermes/connection.py:373-486 | In every run, an interface stays the current one exactly until a loss names it or none, an attempt gets as far as closing it, or a disconnect closes it; a late loss of an older interface never takes its place away |
| `ConnectionRuns.SlowExactlyAtThreshold` | meshtastic_hermes/connection.py:342-371 | With a fixed threshold of at least one, in every reachable state the counter is the length of the trailing run of failures since the last success, connect or disconnect, and the slow cadence is on exactly when it reaches the threshold |
| `ConnectionRuns.FailuresAreCounted` | meshtastic_hermes/connection.py:298-426 | In every run, the failure counter is the number of attempts that built nothing, a missing library in connect apart, since the last attempt that did, or the last connect or disconnect, counted over the turns of the threads |
| `ConnectionRuns.SlowAfterThatManyFailures` | meshtastic_hermes/connection.py:342-371 | With a fixed threshold of at least one, in every run the slow cadence is on exactly when that many attempts in a row have failed |
| `ConnectionRuns.HardErrorExactly` | meshtastic_hermes/connection.py:314-334 | In every run, the hard error is on exactly when the last connect found no library, and no success, connect or disconnect came since |
| `ConnectionRuns.ClientsKeepOrder` | meshtastic_hermes/connection.py:298-464 | In every run, every client takes the steps of connect, or of disconnect, one after the other and leaves none out |
| `ConnectionRuns.FlagsAreLastWritten` | meshtastic_hermes/connection.py:312-457 | In every run, the wish for a link and the stop event are what a connect or a disconnect last wrote |
| `ConnectionRuns.CheckIsExact` | meshtastic_hermes/connection.py:395-397 | A client goes on to create a supervisor exactly when the manager's last thread is missing, was never started, or has ended |
| `ConnectionRuns.StartIsExact` | meshtastic_hermes/connection.py:398-401 | What it starts is the manager's thread, its own or by then another client's, unless that was started before |
| `ConnectionRuns.SupervisorsArePaced` | meshtastic_hermes/connection.py:403-426 | In every run, the k-th fast failure of a supervisor since it started or last reopened the link waits min(2^k, 60) seconds |
| `ConnectionRuns.Supervise` | meshtastic_hermes/connection.py:403-426 | The loop takes exactly the steps of the supervisor of the interleaved system, whatever it sees from round to round, and its waits keep the pace |
| `ConnectionRuns.AtMostOneLateOpen` | meshtastic_hermes/connection.py:403-426 | Once nobody wants the link or is inside connect, each supervisor makes at most one more attempt to open it, none unless it is past both guards, or past the first with the stop event clear, and has ended after six steps of its own |
| `ConnectionRuns.LateOpenExactly` | meshtastic_hermes/connection.py:403-464 | From every such state, some course of events without a new connect lets a supervisor build an interface exactly when it is at one of those places |
| `ConnectionRuns.NoLateOpenExactly` | meshtastic_hermes/connection.py:403-464 | So nothing is ever built after a disconnect, short of a new connect, exactly when no supervisor is at one of those places |
| `ConnectionRuns.LateOpenHappens` | meshtastic_hermes/connection.py:403-464 | Such a state is reached: a run in which disconnect has returned and the link is opened afterwards |
| `Knowledge.NodeGraph.UpsertNode` | meshtastic_hermes/knowledge.py:114-136 | An existing row keeps its first sighting, its packet count and every column the update leaves out, and takes every column the update gives; a new one starts at zero packets; no other row changes |
| `Knowledge.NodeGraph.RecordPacket` | meshtastic_hermes/knowledge.py:138-181 | Undisturbed, a call moves the log's count and the row's counter of every node by the same amount |
| `Knowledge.RowsHoldTheirUpdates` | meshtastic_hermes/knowledge.py:114-181 | In every interleaving, a node's row was first seen at its first update and last seen at its latest, and each column has the last value given for it |
| `Knowledge.RunsStayConsistent` | meshtastic_hermes/knowledge.py:114-181 | In every interleaving of the separately locked steps, a node's counter plus the packets from it still being recorded is the number of logged packets from it |
| `Knowledge.RollupIsAggregate` | meshtastic_hermes/knowledge.py:138-181 | Once all calls have returned, every counter is the aggregate over the log |
| `Knowledge.RollupAnswersTopTalkers` | meshtastic_hermes/knowledge.py:235-243 | Then a listing answers top_talkers over the log exactly when it answers it over the counters |
| `Knowledge.PacketsAreConserved` | meshtastic_hermes/knowledge.py:235-263 | Then the counters of all nodes and the packets without a sender add up to the length of the log |
| `Ipc.RequestWindow.Admit` | meshtastic_platform/adapter.py:694-700 | The front-popping deque decides as a filter of the full history would, and a refused request is not counted |
| `Ipc.RequestWindow.Pop` | meshtastic_platform/adapter.py:695-696 | Popping expired times off the front leaves exactly the live times of the full history |
| `Ipc.RequestWindow.MinutesAreBounded` | meshtastic_platform/adapter.py:694-700 | No half-open minute ever holds more than 120 counted requests |
| `Ipc.Forwarder.Begin` | meshtastic_platform/adapter.py:773-782 | A request is turned away exactly without a registered sidecar or with 32 waiting; otherwise it gets the waiter of its id, and an earlier waiter of that id is replaced |
| `Ipc.Forwarder.OnResult` | meshtastic_platform/adapter.py:688-693 | A result takes its id's waiter out of the map and settles its future if that is still open |
| `Ipc.Forwarder.Finish` | meshtastic_platform/adapter.py:788-792 | A request ends with its answer, with the stop, or with the timeout, which also takes its id's waiter out |
| `Ipc.Forwarder.StopAll` | meshtastic_platform/adapter.py:650-653 | Stopping fails every open future in the map and empties it |
| `Ipc.RunsAreSound` | meshtastic_platform/adapter.py:688-792 | In every run at most 32 waiters exist, and no request is ever answered with another id's result |
| `Ipc.CompletesAtMostOnce` | meshtastic_platform/adapter.py:688-792 | In every run a settled future and an ended request never change again |
| `Ipc.RunsEndAsSettled` | meshtastic_platform/adapter.py:788-792 | In every run, a request that ended by itself ended as its future was settled: with its result, the stop, or the timeout |
| `Ipc.WakingEndsARequest` | meshtastic_platform/adapter.py:788-792 | A waiting request whose future is settled ends with that when it wakes up |
| `Ipc.DeliveryTouchesOnlyItsOwn` | meshtastic_platform/adapter.py:688-693 | A result changes no request and no waiter of another id |
| `Ipc.ResultReachesItsRequest` | meshtastic_platform/adapter.py:688-793 | With distinct ids in flight, a result completes the request that waits for it |
| `Ipc.AnsweredExactly` | meshtastic_platform/adapter.py:688-792 | In every run, whatever ids are used: a result completes the open request that bears its id exactly when, since that was forwarded, its id was not forwarded again and no timed-out request of that id cleaned up |
| `Ipc.ReuseLosesTheAnswer` | meshtastic_platform/adapter.py:780-782 | From every reachable state, one more forwarded request costs a waiting one its answer exactly when it takes the same id |
| `Ipc.TimeoutRemovesOnlyItsOwn` | meshtastic_platform/adapter.py:788-792 | With distinct ids in flight, the end of one request takes out no other live request's waiter |
| `Ipc.ReusedIdLosesAnAnswer` | meshtastic_platform/adapter.py:780-782 | A shortest such run: the answer goes to the second request and the first has no waiter left |
| `Ipc.TimeoutTakesAnAnswer` | meshtastic_platform/adapter.py:780-792 | A run with the other cause: a timed-out request's clean-up takes the waiter of a later request of the same id, whose result is then dropped |
| `Ipc.DroppedLeavesItsWaiter` | meshtastic_platform/adapter.py:782-787 | A forwarded request whose write fails ends and leaves its waiter in the map |
| `Changelog.FoundAtLineStart` | scripts/bump_version.py:161-161 | A heading is found only where the pattern matches at the start of a line |
| `ChangelogRules.FoundIsFirst` | scripts/bump_version.py:161-161 | The heading found is the first line that matches, and none is found only when no line does |
| `ChangelogRules.MatchReads` | scripts/bump_version.py:161-161 | What is matched has the parts the pattern names: two hashes, whitespace, an optional bracket, a version without whitespace or closing bracket, an optional closing bracket, and an end |
| `ChangelogRules.ReadsIsMatched` | scripts/bump_version.py:161-161 | Whatever has those parts is matched, with the same version unless an opening bracket could be read as one |
| `Changelog.ExtractChangelogSection` | scripts/bump_version.py:164-179 | Working by positions over the list of all matches gives what reading on from heading to heading gives |
| `Changelog.EnsureChangelogSection` | scripts/bump_version.py:182-205 | The file is rewritten exactly when no heading begins with the version, and then holds the text with the stub in place |
| `ChangelogProperties.InsertionIsExact` | scripts/bump_version.py:161-205 | Extracting the new version gives the stub's body and extracting any other gives what it gave before, exactly when the text has a section already or does not end in a line of two hashes and whitespace |
| `ChangelogProperties.InsertedAbove` | scripts/bump_version.py:199-201 | The first half, for a stub put above the first section |
| `ChangelogProperties.InsertedAtEnd` | scripts/bump_version.py:202-203 | The same for a stub put at the end of a text without sections |
| `ChangelogProperties.SwallowedStub` | scripts/bump_version.py:161-205 | When the text ends in bare hashes, those take the stub's own hashes for their version and the new section cannot be extracted |
| `ChangelogProperties.EnsuredHasSection` | scripts/bump_version.py:182-205 | Exactly when the file has a section for the version afterwards |
| `ChangelogProperties.LongerVersionBlocksStub` | scripts/bump_version.py:189-190 | A heading for a longer version, as 0.1.10 is for 0.1.1, stops the stub although no section exists |
| `ChangelogProperties.NotPresentHasNone` | scripts/bump_version.py:189-190 | The guard misses nothing: a text it lets through has no section for the version |
| `ChangelogRules.PresentExactly` | scripts/bump_version.py:189-190 | The guard stops the insertion exactly when some line opens with the version |
| `ChangelogRules.StartsExactly` | scripts/bump_version.py:189-190 | A line does so exactly with two hashes, whitespace, an optional bracket and the version |
| `ChangelogRules.InsertedKeepsText` | scripts/bump_version.py:192-203 | The stub is the text the source writes, and the file's own text is kept around it, but for newlines at its end when it has no section |
| `Scrub.Scrubber.constructor` | testrig/scrub.py:75-83 | The learned secrets are the trimmed values of at least the least length, longest first |
| `Scrub.Scrubber.Add` | testrig/scrub.py:85-92 | Adding keeps the old secrets, learns the new ones, and keeps the order |
| `Scrub.Scrubber.ScrubLiterals` | testrig/scrub.py:94-102 | The loop computes `Layer`: one case-blind substitution after another |
| `Scrub.SubIsExact` | testrig/scrub.py:100-102 | A substitution replaces the occurrences that a scan from the left finds, in any casing, and keeps every other character |
| `Scrub.LearnedExactly` | testrig/scrub.py:75-83 | A secret is learned exactly when it is a given value, trimmed, of at least three characters |
| `Scrub.OccurrenceWasThere` | testrig/scrub.py:98-102 | A bracket-free text, not part of the placeholder's word, that shows after a substitution showed before it, at a place the substitution passed over |
| `Scrub.SecretsNeverShow` | testrig/scrub.py:75-102 | For every text and set of secrets, a learned secret without brackets that is not part of the placeholder's word never shows in the output, in any casing, whatever else is replaced before or after it |
| `Scrub.NoTailLeaks` | testrig/scrub.py:79-83 | When a shorter secret's turn comes, no longer one is left for it to cut into |
| `Scrub.DistinctIsExact` | testrig/scrub.py:75-102 | Whatever secrets are learned, a bracket-free one can show in the output of the layer, for some text, exactly when it is part of the placeholder's word |

## Left out

- RateLimit.TransmitLimiter.Check: works on real numbers, so rounding of clock differences in binary floating point is not modelled; not-a-number and infinite settings are not either.
- RateLimit.TransmitLimiter: `snapshot` and `reset`, which read or forget everything, and the process-wide instance.
- Chunking.SplitText: takes well-formed Unicode; `Outbound.Radio.Send` says that any other text raises before it is split.
- Outbound.Radio.Send: the one-second pause between parts is any span of time, and the calls of others come in any number in between.
- Outbound.Radio.SendText: how long an acknowledgement is waited for, the wording of answers, attributes of the packet beyond payload, destination, channel and PKI, and arguments of a wrong type for the text, which raise before the policy is asked; node ids and channel names hold no lone surrogates.
- Outbound.Radio.SendOthers: states only what a reply needs of other callers; each of their calls is covered by SendText.
- Air.SendersStayInStep: a thread that is killed between admission and sendData stays a packet on its way.
- ConnectionRuns.Supervise: never-ending runs are covered by all their beginnings; waits are recorded, their passing and the three-second poll are not.
- Connection.ConnectionManager: the target's host and port, identity, channel table and status queries, and publish/subscribe wiring.
- Knowledge.NodeGraph: SQLite, its text and its transactions are maps and sequences; the other columns of a logged packet, and neighbor, interaction and node listings.
- Knowledge.RollupAnswersTopTalkers: says which listings are right answers, as SQL leaves the order of equal counts open.
- Ipc.Forwarder.Begin: how a sidecar registers is a parameter, and so are framing, envelopes, and what a request carries.
- Ipc.RunsAreSound: a write to the sidecar that fails, or a cancelled request, leaves its waiter in the map, so waiters are not claimed to have a live request behind them.
- Policy.AcceptedExactly: a JSON number too large for a float is infinite, and int() raises on it as a channel index where the policy does not catch it; such numbers, and those that are no number, are not modelled.
- Bridge.InboundFrom: a payload comes as the text its bytes decode to with replacements; message ids and hop counts are not read for the decision; node numbers are not negative.
- Mention.MatchMention: case mapping is one function from characters to characters; the few mappings that change a text's length are not modelled.
- ChannelSpec.ParseChannelSpec: `int()` reads ASCII digits, signs and single underscores; other scripts' digits are not modelled.
- Changelog.ExtractChangelogSection: the one heading pattern is a scan; there is no regular-expression engine. The guard's pattern is that scan without its end.
- Changelog.EnsureChangelogSection: the date and the version are parameters; reading and writing files is not modelled.
- Scrub.Scrubber.ScrubLiterals: the pattern layer after the literal one (node ids, addresses, host names).
- Scrub.SecretsNeverShow: case folding is one function from characters to characters that keeps angle brackets apart from everything else.
- Logging, environment variables, host and port checks, exposure flags, the recent-message buffer, personality requests, registration, the setup wizard, the command line, version files, packaging and the rest of the live test rig: easy next to the above, or outside code.
