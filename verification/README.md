# Console and threshold-signing models

Dafny models of the parts of this repository where a reader, a trader or a custodian relies on
exact behaviour, and proofs of what the code promises about them. Check everything with
`dafny verify dfyconfig.toml` (Dafny 4.11).

| files | what they model |
|---|---|
| `Basics`, `Wire`, `LandProto`, `LandRoundTrip`, `LandFraming`, `LandParcel` | the protobuf codec of the land console: a Writer and a reader over byte strings of any length, messages nested to any depth, the round trip, framing, exactly which tags survive it, and a parcel written and decoded |
| `OversightProto`, `OversightDecode`, `OversightEncode`, `TwoParsers`, `TwoConsoles`, `Merging` | the second, independent codec of the oversight console, decoding against a schema, its encoder, the two codecs compared on every buffer, what the two consoles show of one message, and the decoder compared with one that merges |
| `Amm` | the constant-product curve in exact integers, split trades, runs over a pool, quotes |
| `Sharing`, `Generations` | party ids along a key generation and any chain of reshares, and the two checks that rely on them |
| `Conveyor`, `Party` | messages from tss-lib's channels through the queue to the callers, under every interleaving; and the same as the class one caller drives |
| `Coalition`, `SeizureVote`, `Offices`, `CustodianTally` | voting power: least coalitions, a case's standing over every run of votes, grants and their pins, the custodians' tally |
| `Bech32`, `Bech32Address`, `Bech32Typos`, `Bech32Prefix`, `Bech32Witness` | the checksum and the address decoder, exactly which copying mistakes they catch, and an address with two that they do not |
| `Shell`, `Money`, `PermitQueue` | commands and the shell that reads them back, decimal amounts, the FIFO permit queues |

Values are modelled as values and loops as loops: methods with invariants carry the algorithms
and are proved equal to, or against, specification functions; lemmas then prove what the
repository promises about those functions. BigInt and `big.Int` are `int`. JavaScript's bit
operations are stated as arithmetic (`& 0x7f` is `% 128`), except in the bech32 checksum, which
is on bit-vectors. Number(), ToInt32 and the double's rounding above 2^53 are explicit.

## What the proofs found

Some promises do not hold of the code on all inputs. The code is modelled as it is, and the exact
condition is proved.

- **Tags.** `(field << 3) | wire` goes negative from field number 2^28 on, the Writer sends it as a
  ten-byte varint, and `Number()` rounds the key when it is read. A field number protobuf allows
  survives exactly when it is below 2^28, or is a multiple of 256 carrying a varint
  (`LandFraming.TagReadsBack`). The oversight encoder throws on the same numbers
  (`OversightEncode.EncodesExactly`).
- **Empty nested messages.** A nested message all of whose fields are defaults is not transmitted,
  even as an entry of a repeated field: the entry disappears (`LandRoundTrip.EmptyEncoding`).
- **Framing.** `read` steps over fixed-width fields without checking that they end inside the
  buffer, so a buffer that stops inside one swallows what is joined to it. Parsing a joined buffer
  is parsing both parts exactly when the first ends on a record boundary
  (`LandFraming.FramingExactly`).
- **A singular field twice.** The oversight decoder takes the last entry, as proto3 asks; the land
  accessors take the first, and read nested messages by the same rule. Of a message both consoles
  take they show the same exactly when, field by field at every depth, land's first entry and
  oversight's last come to the same (`TwoConsoles.ViewsAgreeExactly`). That is so of every message
  with no singular field twice, at any depth, and no negative int64 (`TwoConsoles.SettledAgree`).
  Where a number may occur k times, all such messages are shown alike exactly when k is at most one
  (`TwoConsoles.SingularExactly`), and at every depth there is a message shown apart because of one
  repeated field (`TwoConsoles.ApartAtDepth`).
- **Negative integers in land.** land's `u64` does not take the sign: every negative int64, written
  once, is shown moved up by 2^64 (`TwoConsoles.NegativeApart`). The oversight encoder sends an
  int64 of 2^63 or more without complaint, and it decodes as another number; every other value is
  given back (`OversightEncode.RequestDecodes`).
- **A nested message twice.** The oversight decoder keeps the last payload where the encoding guide
  asks to merge them all. It decodes to what merging gives exactly when the payloads dropped lose
  nothing: no entry of a repeated field, no scalar that is neither given again nor the default, and
  so on within (`Merging.MergesExactly`, with an instance in `Merging.ReplacedWhereMerged`).
- **Large negative integers.** `asSigned` promises digits rather than a silently wrong Number. A
  negative int64 is shown exactly only if a double holds it, so below -2^53 it may be rounded;
  everything else is shown exactly (`OversightDecode.IntegersShown`, `OversightDecode.RoundedInt64`).
- **Splitting a trade** never pays more on a pool with something on both sides. With an empty input
  side a first part that is paid nothing fills it and the second part is then paid; the claim holds
  exactly outside that case (`Amm.SplittingExactly`).
- **Forks.** Two reshares of one generation issue the same ids exactly when both or neither
  involved the recovery share (`Generations.ForksLookAlike`), so `sameSharing` cannot tell them apart.
- **Order.** Every run hands messages out in the order they were produced exactly when there are
  not two callers (`Conveyor.OrderExactly`); with more, two drains that overlap can swap messages.
- **Bech32.** The comment at decodeBech32 says the checksum catches every single-character typo and
  every transposition. In the prefix, of any length, it does catch every ASCII character replaced by
  another and every exchange of unequal ASCII neighbours. Of the data it catches every exchange of
  unequal neighbours, and every character replaced by another one that is not the separator `1`, as
  long as it reads as another letter: the Kelvin sign, which JavaScript lowers to `k`, typed for the
  K of an upper-case address is taken as that K (`Bech32Typos.ReplacementExactly`, `KelvinForK`).
  Any other slip, in data, prefix or separator, gets through exactly when
  the text still looks like an address and the checksum comes to the characters after the slip in
  the same state (`Bech32Typos.SlipExactly`). A character inserted into or taken out of the data so
  escapes exactly when it keeps that state and leaves a payload of whole bytes with fewer than five
  bits over: never into a 20-byte address, but a `q` before the final `p` of a 32-byte one
  (`Bech32Typos.InsertionExactly`, `KeyInsertionIsRefused`, `QBeforeFinalP`). A data character typed
  as `1` moves the separator, and can be accepted under a longer prefix
  (`Bech32Typos.OneForDataExactly`). `Bech32Witness` has an address where both happen.
- **The sender.** registrar.js writes `--from ${from}` unquoted. The flag reads as that one sender
  in every directory exactly when the sender is a bare word: not empty, free of blanks, quotes,
  backslashes, `*`, `?` and the other characters that section 2.2 of the Shell Command Language makes
  special, without a `[` that a later `]` closes, and not begun with `#` or `~`
  (`Shell.UnquotedSenderExactly`). A pattern stays as it is where no file matches it.
- **Pruned votes.** The recorded tally stands in for pruned votes exactly when no weight was behind
  an option that is none of the four (`CustodianTally.PrunedAgreesWithLive`).
- **The majority finding** says two disjoint sets can both reach the threshold. They can exactly when
  some set's weight lies between the threshold and what the threshold leaves; with one vote each
  that is what the finding tests, with other weights it can be raised in vain
  (`CustodianTally.FindingExactly`, `UnitFindingExactly`, `FindingWithoutContradiction`).
- **Majority.** Two disjoint coalitions can never both carry a seizure exactly when the threshold is
  above 5000 basis points (`SeizureVote.MajorityExactly`).

## Model

| member | source | states |
|---|---|---|
| LandProto.Writer.PutVarint | clients/land/proto.js:34-43 | appends exactly the base-128 groups of the value, least significant first, a negative one moved up by 2^64 |
| LandProto.Writer.PutBytes | clients/land/proto.js:50-54 | appends tag, length and payload, and nothing for an empty payload |
| LandProto.Writer.PutNum | clients/land/proto.js:62-67 | appends tag and varint, and nothing for zero |
| LandProto.Writer.PutBool | clients/land/proto.js:69-72 | appends tag and 1 for true, nothing for false |
| LandProto.Writer.Put | clients/land/proto.js:75-79 | one call, a nested message written through a Writer of its own, appends the encoding of its tree |
| LandProto.Writer.PutAll | clients/land/proto.js:84 | any sequence of calls appends the encodings in order |
| LandProto.ReadVarint | clients/land/proto.js:108-119 | the shared-index loop reads the varint at the index and leaves the index after it, or throws as the recursive reading does |
| LandProto.ReadRecord | clients/land/proto.js:121-137 | one turn of the loop: the entry filed and how far the index moves, past the end included for fixed-width fields |
| LandProto.Read | clients/land/proto.js:100-139 | the Map has, under every field number, exactly the entries of the record-by-record parse in wire order, and throws exactly when that fails |
| LandRoundTrip.VarintReadsBack | clients/land/proto.js:34-43 | a written value is read back, with every byte it took, exactly when it is in [0, 2^77) after the adjustment for a negative one |
| LandRoundTrip.EmptyEncoding | clients/land/proto.js:50-79 | nothing is transmitted exactly when everything is a default, recursively |
| LandRoundTrip.RoundTrip | clients/land/proto.js:84-139 | for every message tree, read(write(m)) does not throw and gives the transmitted calls in order, nested messages reading in turn as theirs |
| LandRoundTrip.FieldRoundTrip | clients/land/proto.js:141-182 | per field number, exactly the values written, in the order written |
| LandRoundTrip.SingularReadsBack | clients/land/proto.js:141-176 | a field written once reads back as the value given, an omitted zero or empty as the default, a nested message as absent exactly when all of it is default |
| LandFraming.Framing | clients/land/proto.js:121-137 | for a buffer ending on a record boundary, parsing a ++ b is parsing a and then b, failures of b included |
| LandFraming.FramingExactly | clients/land/proto.js:133-134 | an accepted buffer frames with every continuation if and only if it ends on a record boundary |
| LandFraming.UnknownFieldsAreInert | clients/land/proto.js:96-98 | whole records of unnamed fields inserted between records change no named field and neither cause nor hide an error |
| LandFraming.ParcelIgnoresUnknownFields | clients/land/proto.js:260-273 | decodeParcel gives the same parcel, rows and errors alike, whatever unknown fields a newer node adds between records |
| LandParcel.ParcelReadsBack | clients/land/proto.js:225-273 | a parcel written with the fields of parcel.proto decodes to its scalars and its encumbrances (7), deeds (9), restrictions (10) and freezes (12) in order, each list under its own name, rows that are all defaults apart |
| LandFraming.RowsIgnoreUnknownFields | clients/land/proto.js:96-98 | and the same parcel whatever unknown fields it adds inside an encumbrance, a deed, a restriction or a freeze |
| LandFraming.EncumbrancesAccumulate | clients/land/proto.js:91-94 | the encumbrances of two joined stretches are those of the first followed by those of the second; none is collapsed |
| LandFraming.RoundsTo2048 | clients/land/proto.js:122 | Number() takes a 64-bit integer to the nearest multiple of 2048, ties to even |
| LandFraming.TagReadsBack | clients/land/proto.js:45 | a tag reads back as its field and wire type if and only if the field is below 2^28, or is a multiple of 256 with wire type 0 |
| OversightProto.ReadVarint | clients/oversight/proto.js:41-55 | the loop reads the varint at the offset, at most ten bytes, and returns the offset after it |
| OversightProto.SplitOne | clients/oversight/proto.js:98-134 | one turn of the loop: the entry, the new offset, or the error, a zero field number refused |
| OversightProto.SplitFields | clients/oversight/proto.js:95-140 | the Map has, under every field number, exactly the entries in wire order, fixed-width ones clamped to the buffer |
| TwoParsers.ParsersAgree | clients/oversight/proto.js:95-140 | with tags below 2^32, oversight accepts exactly the buffers land accepts whose varints take ten bytes at most and whose field numbers are not zero; land then files the same records, fixed-width ones apart |
| TwoParsers.FieldsAgree | clients/land/proto.js:100-139 | on every such buffer both give the same ordered values of every field |
| TwoParsers.OversightReadsWritten | clients/land/proto.js:84 | what land's Writer wrote of a message tree, oversight's own parser reads as the same calls in order, at every depth |
| TwoParsers.Int64Recovered | clients/oversight/proto.js:71-84 | a negative int64 takes ten bytes, and readVarint with the subtraction in asSigned recovers every int64, as an exact Number down to -2^53 and as its decimal string from 2^53 |
| TwoParsers.RepeatedSingular | clients/land/proto.js:141 | where a singular field occurs in both of two joined messages, land reads the first entry of the first and oversight decodes the last of the second |
| TwoConsoles.ViewsAgreeExactly | clients/land/proto.js:141-182 | for every schema: land's accessors and oversight's decode show the same of a message both take, if and only if in every field, at every depth, land's first entry and oversight's last come to the same, an int64 by its sign only in oversight |
| TwoConsoles.SettledAgree | clients/oversight/proto.js:158-176 | for every schema: a message that oversight takes, with no singular field twice at any depth, no negative int64 and tags below 2^32, land takes too, and both show the same of it |
| TwoConsoles.SingularExactly | clients/land/proto.js:141 | of a field of any number: all messages in which it occurs k times, that oversight takes as a number, are shown the same in both consoles, if and only if k is at most one |
| TwoConsoles.ApartAtDepth | clients/land/proto.js:149-175 | nested to any depth, a message in which one number occurs twice and all around it once is taken and shown apart |
| TwoConsoles.NegativeApart | clients/land/proto.js:149-156 | every negative int64, in a field of any number below 2^28 and written once, is shown apart |
| OversightDecode.IntegersShown | clients/oversight/proto.js:71-84 | every uint64 is shown exactly, as a Number or as digits; an int64 if and only if it is not negative or a double holds it |
| OversightDecode.RoundedInt64 | clients/oversight/proto.js:77-84 | -2^53 - 1 is shown as the Number -2^53 |
| Merging.MergesExactly | clients/oversight/proto.js:158-176 | decode takes every message a merging decoder takes, and gives the same if and only if, wherever a nested message occurs more than once, keeping its last payload alone loses nothing, recursively |
| Merging.ReplacedWhereMerged | clients/oversight/proto.js:171-172 | a message with {1: 1} and then {2: 2} in one nested field decodes to {2: 2} where merging gives both |
| OversightDecode.DecodeMessage | clients/oversight/proto.js:158-176 | decode: one cell per field of the schema, in its order, or the first error |
| OversightDecode.Framing | clients/oversight/proto.js:98-138 | splitting a ++ b is splitting a and then b when a ends on a record boundary |
| OversightDecode.LastOccurrenceWins | clients/oversight/proto.js:89-92 | decoding two joined messages gives, field by field, the last value of a singular field, replaced whole, and all entries of a repeated one in order |
| OversightDecode.UnknownFieldsAreSkipped | clients/oversight/proto.js:31-33 | whole records of fields the schema does not name, anywhere between records, leave the decoded value or the error as it was |
| OversightDecode.UnknownFieldsAtAnyDepth | clients/oversight/proto.js:31-33 | so do records that the schema of a nested message does not name, put in at any depth |
| OversightEncode.WriteVarint | clients/oversight/proto.js:219-228 | appends the groups of the value, and throws on a negative one |
| OversightEncode.EncodeRequest | clients/oversight/proto.js:234-262 | the bytes of every value that is not a default, in ascending field order, or the throw |
| OversightEncode.EncodeSub | clients/oversight/proto.js:265-272 | a nested request as one length-delimited field, nothing when it is empty |
| OversightEncode.Concat | clients/oversight/proto.js:274-280 | the one buffer filled at moving offsets is the parts one after another |
| OversightEncode.EncodesExactly | clients/oversight/proto.js:221 | of requests whose field numbers protobuf allows, encode accepts exactly those with no negative value and no transmitted field number of 2^28 or more |
| OversightEncode.EncodersAgree | clients/oversight/proto.js:234-262 | whatever encode accepts, land's Writer writes byte for byte the same |
| OversightEncode.RequestReadsBack | clients/oversight/proto.js:234-262 | an encoded request ends on a record boundary and splits into exactly its transmitted values in order |
| OversightEncode.NestedReadsBack | clients/oversight/proto.js:264-272 | concat(encode(a), encodeSub(n, b)) splits into the values of a and then b, b absent when empty |
| OversightEncode.RequestDecodes | clients/oversight/proto.js:230-233 | decoded against any schema of its kinds, a request gives every field back the value it was given, or its default, if and only if that is not an int64 of 2^63 or more |
| Amm.SwapOutIsFloor | clients/markets/markets.js:350-360 | with x the input times (10000 - fee) / 10000 rounded down, the output is the greatest integer that leaves the product, priced at x, at or above the product before, and is below the output reserve |
| Amm.SubtractionFormIsCeiling | clients/markets/markets.js:335-344 | the equivalent subtraction form, at the same x, is the ceiling: one unit more exactly when the division is inexact |
| Amm.SwapOutMonotone | clients/markets/markets.js:350-360 | a larger input never fetches less |
| Amm.SplittingNeverPays | clients/markets/markets.js:447-449 | on a funded pool, any list of inputs swapped one after another through the moving reserves yields at most what their sum does |
| Amm.SplittingExactly | clients/markets/markets.js:355-359 | over every list of inputs that claim holds if and only if the input reserve is positive, or the output reserve is at most one, or the fee takes everything |
| Amm.PoolSafety | clients/markets/markets.js:346-348 | over any run of swaps in both directions the product never falls and neither reserve reaches zero |
| Amm.NoProfitableRoundTrip | clients/markets/markets.js:346-348 | a run that leaves one reserve no higher than it found it leaves the other no lower |
| Amm.Conserved | clients/markets/markets.js:346-348 | over any run, on either side, what the pool has and what was paid is what it had and was given, fees included |
| Amm.QuoteOrder | clients/markets/markets.js:391-430 | 0 <= minReceived <= amountOut < reserveOut, 0 <= impactBps <= costBps <= 10000, the fee is between 0 and the input, and the quoted reserves keep the product |
| Amm.QuoteExactly | clients/markets/markets.js:391-430 | every figure of a quote in exact integers: the fee kept, the least to be received, the shortfall from the price before the trade with and without the fee in basis points rounded down, and the reserves after |
| Sharing.Participating | mpc/reshare.go:226-244 | succeeds exactly when every present share has its id and at least 2 are present, and gives the sorted ids with the largest one kept |
| Sharing.FreshKey | mpc/reshare.go:252-260 | the largest participating id plus the place in Roles plus one |
| Sharing.NewCommittee | mpc/reshare.go:79-86 | three consecutive ids above every participating one, in Roles order, and sorting keeps that order |
| Sharing.CheckSameKey | mpc/reshare.go:262-284 | from one arbitrary entry of each map: accepts a common key, and accepting means every issued share has the key of the outgoing ones |
| Sharing.Collect | mpc/reshare.go:156-188 | in whatever order the parties of a completed resharing end, retired ones among them, the shares collected are those of the new committee by role |
| Sharing.Reshare | mpc/reshare.go:67-201 | a result has a share for every role, under the same key, from at least two shares; and a completed resharing always yields the next committee |
| Generations.RoleOfSave | mpc/mpc.go:231-241 | the role whose party has the save's own id, refused exactly when none has |
| Generations.Keygen | mpc/mpc.go:168-228 | in whatever order the parties end, a completed generation gives ids 1, 2, 3 in Roles order |
| Generations.SameSharing | mpc/mpc.go:431-461 | accepts if and only if every share of a known role has a committee and all have the same |
| Generations.CommitteeOf | mpc/party.go:138-174 | succeeds if and only if the share carries its role's id, every signer is a role and the party is one of them; gives the sorted ids of the signers and its own |
| Generations.CurrentIds | mpc/reshare.go:79-86 | after any history, ids are three consecutive numbers in Roles order, moved up by the place of the highest participating role |
| Generations.ReshareExtends | mpc/reshare.go:67-201 | from any two or more current shares a reshare is admitted, and the next generation is what it issues |
| Generations.AnyTwoSuffice | mpc/mpc.go:97-99 | of the shares of any generation, any two different ones sign a 32-byte hash and are admitted to a reshare, and no fewer are |
| Generations.OneGenerationExactly | mpc/mpc.go:424-461 | along any history sameSharing accepts a choice of shares if and only if all are of one generation |
| Generations.SigningCommittee | mpc/mpc.go:251-312 | Sign goes on if and only if it is given at least two shares of one sharing, each with its id, and 32 bytes; it names one party for each share, by that share's own id, sorted |
| Generations.SignsExactly | mpc/mpc.go:251-303 | along any history, Sign lets a choice of shares through if and only if the hash has 32 bytes and the shares are at least two and of one generation |
| Generations.OwnRoleOnly | mpc/party.go:144-154 | along any history committeeOf accepts a share under its own role and no other, and two signers derive the same committee if and only if their shares are of one generation |
| Generations.ForksLookAlike | mpc/reshare.go:250-260 | two reshares of one generation issue the same ids if and only if both or neither involved the recovery share |
| Conveyor.ExactlyOnce | mpc/party.go:47-55 | under every interleaving with any number of callers, each message produced is handed out, queued, in flight in one drain, in the channel or failed to serialise, each exactly once |
| Conveyor.NothingLeftBehind | mpc/party.go:221-237 | when Outbound returns with the channel empty and nothing in flight, everything that serialised has been handed out |
| Conveyor.WithinChannels | mpc/party.go:110-115 | over every run the channels hold at most 32 messages, 4 errors and one result, and only messages that do not serialise are counted as failed |
| Conveyor.PollingNeverConsumes | mpc/party.go:271-280 | Signature, Share and Err never take from the queue, however many and however interleaved |
| Conveyor.Sticky | mpc/keygen_party.go:112-149 | finished stays finished and the first failure stays the failure, over every run |
| Conveyor.FirstInFirstOut | mpc/party.go:176-219 | drains that do not overlap hand messages out in the order produced |
| Conveyor.OneCallerSeesFifo | mpc/party.go:176-219 | one caller alone always sees that order |
| Conveyor.TwoCallersReorder | mpc/party.go:196-214 | two of any number of callers, draining at once, can hand out two messages in the other order |
| Conveyor.OrderExactly | mpc/party.go:176-219 | every run hands out in the order produced, if and only if there is at most one caller |
| Party.Party.Drain | mpc/party.go:182-219 | empties all three channels into the queue, the result and the first failure, as a run of the machine |
| Party.Party.TakeOutbound | mpc/party.go:227-237 | hands over the queue and everything drained, in order, clears it, and reports a failure exactly when there is one |
| Party.Party.Poll | mpc/party.go:271-280 | reports the result exactly when finished, and leaves every message for Outbound |
| Party.Party.PollErr | mpc/keygen_party.go:225-233 | reports a failure exactly when there is one, and leaves every message for Outbound |
| Coalition.FewestSigners | clients/foundation/foundation.js:1894-1910 | the least size of any set of members reaching the threshold; null exactly when the threshold is missing or not positive, or no set reaches it |
| Coalition.ReachableExactly | clients/foundation/foundation.js:1885-1888 | some set of at most k members reaches a bar if and only if the k largest positive weights, or all there are, do |
| Coalition.LargestDominate | clients/foundation/foundation.js:1885-1888 | the k largest weights outweigh every set of k members |
| Coalition.SeizureCoalition | clients/oversight/oversight.js:111-140 | validators and total count those with positive power; minimumToSeize is the least number of validators reaching the bar, null exactly when none do; largestCanSeizeAlone exactly when that number is one |
| SeizureVote.RequiredIsCeiling | clients/oversight/oversight.js:39-46 | while total * bps is at most 2^53, the power required is the exact ceiling of total * bps / 10000, to whichever nearby Number the division rounds |
| SeizureVote.StandingExactly | clients/oversight/oversight.js:62-90 | met exactly when the yes power times 10000 is at least total * bps, reachable exactly when it is with the uncast power added; uncast is the power not voted, and shortBy the least power whose addition meets the bar; abstentions count for nothing |
| SeizureVote.StandingIsFinal | clients/oversight/oversight.js:52-57 | over any run of distinct validators' votes, met stays true, reachable stays false, and met excludes not reachable |
| SeizureVote.ReachableIsExact | clients/oversight/oversight.js:67-87 | reachable holds if and only if some continuation of the uncast power meets the bar |
| SeizureVote.ShortfallDecides | clients/oversight/oversight.js:88-89 | uncast is the power not yet voted; met and reachable are decided by shortBy against it |
| SeizureVote.MajorityExactly | clients/oversight/oversight.js:25-46 | no validator set ever has two disjoint coalitions that both carry a case, if and only if the threshold is above 5000 |
| Offices.OfficeShapeOf | clients/foundation/foundation.js:1925-1958 | members counts those with positive weight; signatures is the least coalition of at most 50, or a problem with its reason |
| Offices.ShapeProblem | clients/foundation/foundation.js:1989-2009 | a shape is refused exactly when it is not 1 <= signatures <= members <= 50 |
| Offices.FindGrant | clients/foundation/foundation.js:2074-2077 | the first grant of the list with this role and scope, wherever it stands; none exactly when no grant has both |
| Offices.GrantPlan | clients/foundation/foundation.js:2109-2204 | each problem is listed exactly when it is one: of naming, of the holder, of a pin dropped or weakened, of the shape against the office |
| Offices.ComposedExactly | clients/foundation/foundation.js:2222-2239 | a grant is composed if and only if everything named is good, the holder is an office with the shape asked for, and any pin is kept in both numbers |
| Offices.PinsOnlyTighten | clients/foundation/foundation.js:1872-1877 | over any sequence of accepted grants, each checked against a list of exactly the holder's grants in any order, no pin of a holder, role and scope weakens in either number |
| Offices.PinnedByAnOffice | clients/foundation/foundation.js:2181-2204 | whatever grants follow, a pin of m-of-n in force was granted to an office no m-1 members of which reach its threshold and n of which can vote |
| CustodianTally.Tally | clients/foundation/foundation.js:537-608 | the Map and the sums give the counts by each custodian's last vote, or the recorded tally once the votes are pruned; yes weight alone reaches the threshold, and stillNeeded is exactly what it lacks |
| CustodianTally.WeightsPartition | clients/foundation/foundation.js:580-584 | the five weights partition the total, but for weight behind an unknown option |
| CustodianTally.StaleVotesChangeNothing | clients/foundation/foundation.js:586-590 | votes of addresses that are not custodians change no count and are the ones listed as stale |
| CustodianTally.PrunedAgreesWithLive | clients/foundation/foundation.js:541-563 | the recorded tally of some votes gives the same counts, reached, couldStillPass and stillNeeded as the votes, if and only if no weight is behind an unknown option |
| CustodianTally.CouldPassExactly | clients/foundation/foundation.js:532-536 | couldStillPass holds if and only if some votes by those who have not voted reach the threshold |
| CustodianTally.MajoritiesIntersect | clients/foundation/foundation.js:161-169 | with no majority finding, any two sets reaching a positive threshold share a member |
| CustodianTally.FindingExactly | clients/foundation/foundation.js:161-169 | of any weights: two disjoint sets can both reach the threshold if and only if some set weighs between the threshold and the total less the threshold, and the finding is then raised |
| CustodianTally.UnitFindingExactly | clients/foundation/foundation.js:161-169 | with one vote each, the finding is raised if and only if two disjoint sets can both reach the threshold |
| CustodianTally.FindingWithoutContradiction | clients/foundation/foundation.js:161-169 | one custodian of weight three and a threshold of one: the finding is raised and no two such sets exist |
| Bech32.ComputePolymod | clients/governance/administrators.js:215-225 | the nested loops compute the fold of the step over the values from 1 |
| Bech32.StepInjective | clients/governance/administrators.js:218-222 | the step is injective in the 30-bit state |
| Bech32.StatesStayApart | clients/governance/administrators.js:215-225 | two states are brought together by no continuation unless equal |
| Bech32.BurstChangesChecksum | clients/governance/administrators.js:215-225 | any change within six consecutive values changes the checksum, at any length |
| Bech32Address.DecodeBech32 | clients/governance/administrators.js:255-296 | prefix and length in bytes, or the first problem in the order checked |
| Bech32Typos.AcceptedExactly | clients/governance/administrators.js:255-296 | accepted with this prefix and this many bytes exactly when the text is 1 to 90 long, of one case and not padded, the prefix before the last 1 is not empty, what follows is of the charset and six longer than the bytes take with fewer than five bits over, and the checksum is 1 |
| Bech32Address.WindowIsCaught | clients/governance/administrators.js:274-287 | any change of accepted data to charset characters within six consecutive places is refused |
| Bech32Address.SubstitutionIsCaught | clients/governance/administrators.js:274-287 | an accepted address with one data character replaced by a different one of the charset, as typed, is refused |
| Bech32Address.TranspositionIsCaught | clients/governance/administrators.js:274-287 | an accepted address with two adjacent unequal data characters exchanged, as typed, is refused |
| Bech32Typos.SlipExactly | clients/governance/administrators.js:247-287 | an accepted address with anything else before its last characters, in data, prefix and separator alike, is accepted if and only if it still looks like an address and its last characters are met in the same checksum state |
| Bech32Typos.InsertionExactly | clients/governance/administrators.js:247-295 | a character other than 1 put into the data is accepted if and only if it is of the charset, keeps the state it meets, and the text as typed and its payload are ones decodeBech32 takes |
| Bech32Typos.DeletionExactly | clients/governance/administrators.js:247-295 | a character taken out of the data is not missed if and only if it had kept the state it met and the payload left is one decodeBech32 takes |
| Bech32Typos.ReplacementIsRefused | clients/governance/administrators.js:247-287 | a data character replaced by any other letter but 1, letters compared in lower case, is refused |
| Bech32Typos.ReplacementExactly | clients/governance/administrators.js:256-287 | as typed: a data character replaced by any character but 1 is accepted if and only if the new one lowers to the same letter and the text does not mix cases |
| Bech32Typos.KelvinForK | clients/governance/administrators.js:256-266 | the Kelvin sign typed for a K of an upper-case address decodes as the address |
| Bech32Typos.OneForDataExactly | clients/governance/administrators.js:267-295 | a data character replaced by 1 is accepted if and only if what follows has a checksum and a good payload and is met in the same state |
| Bech32Typos.OneInDataExactly | clients/governance/administrators.js:267-295 | the same of a 1 put in between two data characters |
| Bech32Typos.PrefixExactly | clients/governance/administrators.js:227-287 | any other prefix before the same data is accepted if and only if it is not empty, the text is well typed, and the data is met in the same state |
| Bech32Typos.SeparatorExactly | clients/governance/administrators.js:267-295 | a separator replaced or left out is not missed if and only if the text splits well at an earlier one and the data is met in the same state |
| Bech32Typos.SeparatorForwardExactly | clients/governance/administrators.js:267-295 | a separator exchanged with the character after it is not missed if and only if the payload left is good and is met in the same state |
| Bech32Typos.SeparatorBackExactly | clients/governance/administrators.js:267-295 | a separator exchanged with the character before it is not missed if and only if that character is of the charset, a prefix is left, and the data is good and met in the same state |
| Bech32Prefix.PrefixReplacementIsRefused | clients/governance/administrators.js:227-287 | one ASCII character of a prefix of any length, replaced by another ASCII character, is refused |
| Bech32Prefix.PrefixExchangeIsRefused | clients/governance/administrators.js:227-287 | two unequal neighbours in a prefix of any length, ASCII both, exchanged, are refused |
| Bech32Typos.QBeforeFinalP | clients/governance/administrators.js:247-295 | a q put before the final p of an accepted address is accepted if and only if the text as typed and its payload are ones decodeBech32 takes |
| Bech32Typos.KeyInsertionIsRefused | clients/governance/administrators.js:288-294 | no character but 1 can be put into the data of a 20-byte address unnoticed |
| Bech32Witness.AddressIsAccepted | clients/governance/administrators.js:255-296 | a text of 62 characters that decodes to the prefix yml and 32 bytes |
| Bech32Witness.InsertedQIsAccepted | clients/governance/administrators.js:247-249 | the same with a q before its final p decodes, to 33 bytes |
| Bech32Witness.OneForDIsAccepted | clients/governance/administrators.js:247-249 | the same with its first d typed as 1 decodes, to another prefix and 26 bytes |
| Shell.QuotedIsOneWord | clients/markets/markets.js:794-798 | sh(s) reads as exactly one word equal to s, for every string |
| Shell.LeftAsItIs | clients/markets/markets.js:794-798 | sh leaves a value unquoted exactly when it is not empty and all its characters are letters, digits or one of the ten marks |
| Shell.QuotingIsInjective | clients/foundation/foundation.js:933-937 | no two values are quoted alike |
| Shell.Wrap | clients/foundation/foundation.js:939-947 | the loop that edits its lines in place gives the parts placed one after another, joined by backslash newlines |
| Shell.WrappedReparses | clients/foundation/foundation.js:939-947 | the words of a wrapped command are exactly the words of its parts, wherever the lines break |
| Shell.WrappedFits | clients/foundation/foundation.js:943-944 | no line is wider than 78 unless it is a single part by itself |
| Shell.BrokenWhereFull | clients/foundation/foundation.js:943-944 | a line ends only where the next part would have made it wider than 78 |
| Shell.CommandReparses | clients/markets/markets.js:821-829 | a composed command reads as its own words, then exactly its arguments, then the words of its flags |
| Shell.QuotedSender | clients/markets/markets.js:800-801 | the quoted sender flag reads as --from and the sender |
| Shell.UnquotedSenderExactly | clients/land/registrar.js:425-426 | the unquoted one does, whatever files the directory has, if and only if the sender is a bare word: nothing in it is blank, quoting or special in section 2.2, no bracket in it is closed, and it does not begin with # or ~ |
| Money.PrintedReadsBack | clients/markets/markets.js:149-169 | toBaseUnits(toDisplayAmount(n, e), e) is n, nothing truncated, for 0 <= e <= 30 |
| Money.TypedExactly | clients/markets/markets.js:253-265 | a text is read as a decimal exactly when it is its digits with a point or a comma between them, or none before no decimals, with white space and apostrophes anywhere |
| Money.ReadingIsFloor | clients/markets/markets.js:250-271 | null exactly when the text means no decimal or the exponent is outside 0 to 30; otherwise the floor of its value in base units, and truncated says exactly whether that is less |
| Money.TypedRender | clients/markets/markets.js:253-265 | a printed decimal is read as its own digits before and after the point |
| Money.ShownNeverExceeds | clients/markets/markets.js:209-236 | formatAmount never denotes more than the amount; truncatedFrom is null if and only if it denotes exactly it, and otherwise a decimal that does |
| Money.ShownIsFloor | clients/markets/markets.js:209-226 | with a number of decimals given, formatAmount shows the amount rounded down to exactly them, without trailing zeros |
| PermitQueue.AlwaysSound | clients/demo/chain.js:110-117 | in every reachable state the counter equals the holders, is within the limit and at it while anyone waits, and permits go in order of arrival |
| PermitQueue.ServedInTurn | clients/land/chain.js:188-193 | r releases serve exactly the first r waiters in order, whoever arrives meanwhile |
| PermitQueue.KthWaiter | clients/land/chain.js:188-193 | the k-th waiter is served by the k-th release and not before |
| PermitQueue.Permits.TryAcquire | clients/demo/chain.js:114-116 | a permit is granted at once exactly when one is free, otherwise the ticket joins the queue |
| PermitQueue.Permits.GiveBack | clients/demo/chain.js:117 | the permit passes to the first waiter, or the counter falls |

## Left out

- tss-lib: its rounds, its errors and its timing are foreign code; it appears as what its channels yield. `routeReshare` and `route` only apply its destination rules.
- NewSigningParty: its checks of digest length and number of signers, which are single comparisons; Sign's hand-over to tss-lib and its loop over the parties' messages.
- Outbound records: a message's From, To and Broadcast, Handle's refusal of one's own message, and normalise, which halves S.
- Conveyor: a key generation party's channel holds 24 messages and a signing party's 32; the runs of the smaller are runs of the larger.
- Generations.CommitteeOf: does not model the sort by name before the sort by id, which decides only the unknown name that is reported.
- Strings: text is taken as its UTF-8 bytes in the codecs; encoding and decoding UTF-8 are not modelled, and lengths of strings count characters where JavaScript counts UTF-16 units.
- Accessors on entries of the wrong wire type, where JavaScript coerces; `read` of a varint entry is modelled as the empty message it is.
- Message tables: of the land decoders only decodeParcel is spelt out, its status as a number and not by name; the others name other fields in the same way, and the oversight schemas are any schema.
- OversightEncode.RequestDecodes: does not model values that are neither integers, booleans, strings nor bytes, which `encode` leaves to Number and BigInt.
- Coalition.SeizureCoalition: does not model Numbers beyond 2^53, where total * bps is no longer exact, and neither do the other members about a case; nor the rounded display shares in basis points.
- Coalition.FewestSigners: weights are integers; fractional weights would be added in floating point.
- Offices.OfficeShapeOf: a weight that is neither a finite number nor null is taken as null.
- Offices.GrantPlan: does not model the concerns, which are said and do not block, nor the address, role and scope checks it calls, which are given as verdicts.
- auditGroup: its other findings are comparisons of single values.
- Money.ShownNeverExceeds: does not model group separators, symbols, negative amounts, or amounts given as unparsable text.
- Bech32Address.DecodeBech32: letters with two cases are the ASCII letters, and the Kelvin sign, which lowers to one; checkAddress and couldBeGroupAccount compare its result with constants.
- Shell: a bracket inside a pattern is closed by its first `]`, character classes within it not being told apart.
- Shell: operators, expansions, patterns, double quotes and comments; a text that has one unquoted is given no words, so nothing is claimed of it. Reserved words and assignments are those of a command's first words, which every composer writes itself.
- PermitQueue: promises and fetches; a step is an acquire or a release. The paced queue of RPC calls is a timer.
- Fetching, wallets, rendering, chain wiring and deployment.
