# Verified models of the BitMesh web client

BitMesh sells internet access over Bitcoin micropayment channels. Its browser client talks Protocol
Buffers to a router, keeps a payment channel open, and draws its funding address as a QR code. This project
models the parts of that client whose behaviour is hardest to see from the code, and proves what they promise
for every input, every message tree and every sequence of events.

| part | modules | form |
|---|---|---|
| payment channel | `Channel`, `ChannelSafety`, `ChannelTheorems`, `ChannelProgress`, `ChannelClient` | step functions over events, an auditor that sees only the log, and the client as a class of global variables that refines the step functions |
| Protocol Buffers | `Wire`, `Utf`, `Utf8`, `Proto`, `ProtoDecode`, `ProtoMessage`, `ProtoTheorems`, `ProtoSkip`, `ProtoRoundTrip`, `ProtoDefaults`, `ByteBuffers`, `ProtoEncoder` | encoder, length calculator and decoder as functions on bytes; the encoder again as methods on a growable buffer |
| 64-bit integers | `Long64`, `LongDivision`, `LongText` | limb arithmetic as functions, division, printing and parsing as methods with loops |
| QR code | `Galois`, `FieldTheory`, `Vandermonde`, `ReedSolomon`, `QrGrid`, `JsBits` | finite field and polynomial theory, the Reed-Solomon methods, the zigzag over an array of modules |
| GIF writer | `BitStream`, `Lzw` | the bit stream and the compressor as methods, against an independent decoder |

`Common` holds the little that the parts share.

## What the code does that its comments do not say

- A refund signature that arrives again outside `SENT_REFUND` restarts the payment transaction, so what was
  paid is forgotten and the next update returns more change than the one before, although the protocol file
  asks for less each time. `ChannelTheorems.RefundForgets` gives the exact condition and
  `ChannelProgress.RefundSentTwice` a page on which it happens.
- The number of unacknowledged payment updates is never counted up, so the branch that reopens the channel
  after too many of them is not reached in any run (`ChannelTheorems.NeverCounted`); the model keeps the branch.
- The loop of `UTF16toUTF8` never ends exactly when a surrogate left without partner by the scan from the left
  is followed by a plain unit (`Utf.LoopEnds`, with `Utf.NeverEnds` for D800 0041), and a string whose loop ends
  is lost exactly when a pair starts with a unit above 0xDFBF (`Utf.TextRoundTrip`, with `Utf.LosesBit` for
  DFC0 DC00).
- `readVarint32` still reads a group that stands right at the limit of its buffer (`Wire.ReadsAtLimit`).
- A group nested in a group that the decoder does not know is left behind its first record. The outer group is
  therefore passed over exactly when every group in it is empty (`ProtoSkip.SkipsUnknown`, with
  `ProtoRoundTrip.NestedGroupRefused` for six bytes that fail).
- The GIF end code is written with the width of the last data code; when the width has just grown and the
  stream ends on a whole byte, a decoder finds no end code (`Lzw.RasterDecodes`). At the two bits a pixel that
  the writer uses this happens for exactly eleven data codes (`Lzw.TwoBitsDecode`, with `Lzw.EndCodeLost` for
  eleven pixels), and never to an image of more than 66 pixels (`Lzw.LargeRastersDecode`).
- 255 check bytes cannot be computed for any block but zeros, because the generator then has zero
  coefficients whose logarithm throws (`ReedSolomon.GeneratorHasZero`, `ReedSolomon.ErrorBytes`).

## Model

| member | source | states |
|---|---|---|
| ChannelSafety.RunKeeps | Sources/WebClient/js/bitmesh.js:217-317 | for every sequence of messages, socket, timer and user events the log passes the auditor's rules and the client's variables agree with the books; in particular `waiting_to_initiate` is false from INITIATED through SENT_CONTRACT |
| ChannelSafety.StepKeeps | Sources/WebClient/js/bitmesh.js:442-534 | one event, whether its handler ends or throws half way, keeps the invariant |
| ChannelSafety.SendContractKeeps | Sources/WebClient/js/bitmesh.js:915-954 | the contract leaves for a validated Consumer not contracted before and lowers the change by exactly the first payment; the throwing case with no change left is covered |
| ChannelSafety.ReceiveRefundKeeps | Sources/WebClient/js/bitmesh.js:836-872 | a refund signature in any state, valid or not, keeps the invariant |
| ChannelSafety.IncrementPaymentKeeps | Sources/WebClient/js/bitmesh.js:982-1033 | an increment is acknowledged before the next, never raises the change, and leaves nothing or at least the minimum |
| ChannelSafety.CommitKeeps | Sources/WebClient/js/bitmesh.js:789-811 | building a Consumer moves exactly the unprocessed outputs into its commitment |
| ChannelSafety.AddFundingKeeps | Sources/WebClient/js/bitmesh.js:654-730 | outputs of a new transaction join the wallet without repeating any outpoint |
| ChannelTheorems.RefundBeforeContract | Sources/WebClient/js/bitmesh.js:836-954 | in every run a contract is sent at most once per Consumer, the refund validated last before it is that same Consumer's own, validated on that Consumer, and the first payment, the change that the contract returns and the fee add up to what that Consumer's commitment holds |
| ChannelTheorems.RefundIsBacked | Sources/WebClient/js/bitcore-channel.js:174-215 | in every run the worth of every payment and its fee add up to the satoshis of its Consumer's commitment |
| ChannelTheorems.ReopensOwn | Sources/WebClient/js/bitmesh.js:571-586 | in every run a version message asks only for a channel whose contract this client has sent, or failed to send, before |
| ChannelTheorems.UpdateIsSound | Sources/WebClient/js/bitmesh.js:982-1033 | every update in every run is of the payment started last, its change is between zero and what that payment is worth, at least the minimum unless the signature type says the channel is used up, and, for a positive minimum, zero exactly then |
| ChannelTheorems.ChangeNeverGrows | Sources/WebClient/js/bitmesh.js:982-1033 | between two validated refunds the change never grows and stays on the same Consumer, whose contract was sent if one was |
| ChannelTheorems.UpdatesAreAcked | Sources/WebClient/js/bitmesh.js:1477-1503 | in every run updates, with one for a pending acknowledgement, never outnumber acknowledgements |
| ChannelTheorems.UpdatesAreFew | Sources/WebClient/js/bitmesh.js:982-1048 | at any moment after a contract, when all updates but a final one were at least w wide, those that lowered the change number at most (amount - first payment) / w rounded up |
| ChannelTheorems.NeverCounted | Sources/WebClient/js/bitmesh.js:1477-1503 | in every run the count of unacknowledged updates is zero, so its limit is never passed |
| ChannelTheorems.TotalMatchesPaid | Sources/WebClient/js/bitmesh.js:1040-1048 | with acknowledgements at most once, the rise of the total plus an unacknowledged increment is what the channel has paid |
| ChannelTheorems.NoDoubleCommitment | Sources/WebClient/js/bitmesh.js:654-811 | no transaction output is an input of two commitments, or twice of one |
| ChannelTheorems.SatoshisConserved | Sources/WebClient/js/bitmesh.js:654-811 | every satoshi received is in exactly one commitment or unprocessed, and an output is unprocessed exactly from the used count on |
| ChannelTheorems.RefundForgets | Sources/WebClient/js/bitcore-channel.js:174-215 | in every reachable state a refund signature lowers what was paid exactly when it is valid, a refund was set up, the state is not SENT_REFUND and something was paid |
| ChannelTheorems.OursExactly | Sources/WebClient/js/bitmesh.js:654-730 | the outputs of a transaction that pay the funding address, each with its own index and amount, and no others |
| ChannelTheorems.FundingArrives | Sources/WebClient/js/bitmesh.js:654-730 | a refundable transaction not seen before adds exactly those outputs, in any state; any other adds nothing |
| ChannelTheorems.StartWallet | Sources/WebClient/js/bitmesh.js:756-784 | a commitment is built exactly when what is not depleted, less the fee, reaches the minimum and the server's key is known |
| ChannelTheorems.ClosedLeaves | Sources/WebClient/js/bitmesh.js:1054-1093 | when a used-up channel is closed, in any run, what is left are exactly the outputs that no commitment holds |
| ChannelProgress.ContractOpens | Sources/WebClient/js/bitmesh.js:958-977 | in every run the provider's confirmation of a sent contract opens the channel and starts the timer |
| ChannelProgress.TickPays | Sources/WebClient/js/bitmesh.js:1477-1503 | in every run a due tick after an acknowledgement sends the next update, of the coin width or of all when less than the minimum would remain, and an error when that is negative; any other tick sends nothing |
| ChannelProgress.TermsReceived | Sources/WebClient/js/bitmesh.js:736-750 | the least channel and the least payment that the server names are taken as they are |
| ChannelProgress.PriceReceived | Sources/WebClient/js/bitmesh.js:610-640 | and so is its price |
| ChannelProgress.Refuses | Sources/WebClient/js/bitmesh.js:595-730 | a version, price, funding transaction or refund signature that is not acceptable is answered with an error message |
| ChannelProgress.VersionSent | Sources/WebClient/js/bitmesh.js:571-586 | reconnecting asks for the previous channel, closing does not |
| ChannelProgress.VersionAfter | Sources/WebClient/js/bitmesh.js:1054-1093 | when the server closes or fails, the client asks for the previous channel unless that was used up and closed |
| ChannelProgress.ChannelPays | Sources/WebClient/js/bitmesh.js:217-317 | a page that leads from loading through funding, refund and contract to the open channel and its first update, for every amount above 2000 satoshis |
| ChannelProgress.RefundSentTwice | Sources/WebClient/js/bitmesh.js:836-872 | a concrete run on which the same signature twice forgets the payment |
| ChannelClient.ChannelConsumer.AcceptRefund | Sources/WebClient/js/bitcore-channel.js:174-215 | a fresh payment whose worth and fee add up to the inputs, with nothing paid |
| ChannelClient.Client.SetChannelState | Sources/WebClient/js/bitmesh.js:217-317 | the re-entrant state change refines the step function, throwing exactly where it does |
| Channel.UndepletedCounts | Sources/WebClient/js/bitmesh.js:1402-1420 | attached and unprocessed outputs count in full, depleted ones not at all |
| ChannelClient.Client.UpdateEscrowAmount | Sources/WebClient/js/bitmesh.js:1402-1420 | the escrow is what the unprocessed and attached outputs hold less the fee, and the coin width the greater of its hundredth and the price |
| ChannelClient.Client.Initiate | Sources/WebClient/js/bitmesh.js:756-784 | refines the step function, including the too-small and missing-key cases |
| ChannelClient.Client.CreatePaymentChannel | Sources/WebClient/js/bitmesh.js:789-811 | the loop attaches exactly the unused outputs to a fresh Consumer |
| ChannelClient.Client.ReceiveFunding | Sources/WebClient/js/bitmesh.js:654-730 | refines the step function on duplicates, unrefundable and worthless transactions |
| ChannelClient.Client.ReceiveRefund | Sources/WebClient/js/bitmesh.js:836-872 | refines the step function |
| ChannelClient.Client.SendContract | Sources/WebClient/js/bitmesh.js:915-954 | refines the step function |
| ChannelClient.Client.IncrementPayment | Sources/WebClient/js/bitmesh.js:982-1033 | refines the step function |
| ChannelClient.Client.ReceiveClose | Sources/WebClient/js/bitmesh.js:1054-1093 | attached outputs become depleted exactly when the channel was used up |
| ChannelClient.RunClient | Sources/WebClient/js/bitmesh.js:1603-1620 | the page after any events is in the state of the run that the theorems are about |
| Wire.CalculateVarint32Exact | Sources/WebClient/js/ByteBufferAB.js:1471-1479 | the thresholds give the number of groups for every 32-bit value |
| Wire.CalculateVarint64Exact | Sources/WebClient/js/ByteBufferAB.js:1636-1659 | the overlapping parts give the number of groups for every 64-bit value |
| Wire.VarintGroups | Sources/WebClient/js/ByteBufferAB.js:1509-1544 | group i of a varint holds the bits from 7 * i on, all but the last are marked, and the last is not idle |
| Wire.WriteVarint64Exact | Sources/WebClient/js/ByteBufferAB.js:1701-1749 | parts of 32 bits cut to bytes still write the plain varint of every 64-bit value |
| Wire.Read32OfVarint | Sources/WebClient/js/ByteBufferAB.js:1565-1598 | a varint of any width reads as its low 32 bits and is consumed whole |
| Wire.ReadsAtLimit | Sources/WebClient/js/ByteBufferAB.js:1565-1598 | a group right at the limit is still read, one behind it is not |
| Wire.Read64OfVarint | Sources/WebClient/js/ByteBufferAB.js:1772-1809 | reading the varint of any 64-bit value gives it back, for the reader that ReadVarint64 is proved to be |
| Wire.ZigZagInverse | Sources/WebClient/js/ByteBufferAB.js:1487-1499 | zig-zag decoding undoes encoding and the code fits the width |
| Wire.ZigZagBitwise | Sources/WebClient/js/ByteBufferAB.js:1487-1489 | the shifts and the exclusive or, bit by bit in words of any width, are zig-zag for every number of that width |
| Wire.UnZigZagBitwise | Sources/WebClient/js/ByteBufferAB.js:1497-1499 | and so are those of the decoder |
| Wire.FixedInverse | Sources/WebClient/js/ByteBufferAB.js:849-930 | reading little-endian bytes gives the number back |
| Wire.FixedBytes | Sources/WebClient/js/ByteBufferAB.js:849-870 | byte i holds the bits from 8 * i on |
| ByteBuffers.ByteBuffer.Resize | Sources/WebClient/js/ByteBufferAB.js:2767-2783 | grows to a new array that starts with all the old bytes |
| ByteBuffers.ByteBuffer.WriteVarint32 | Sources/WebClient/js/ByteBufferAB.js:1509-1541 | appends the varint and touches nothing in front of it |
| ByteBuffers.ByteBuffer.WriteVarint64 | Sources/WebClient/js/ByteBufferAB.js:1701-1749 | appends the varint |
| ByteBuffers.ByteBuffer.ReadVarint32 | Sources/WebClient/js/ByteBufferAB.js:1565-1598 | the loop that or-s five shifted groups together computes the value of all groups modulo 2^32, with its own bounds errors |
| ByteBuffers.ByteBuffer.ReadVarint64 | Sources/WebClient/js/ByteBufferAB.js:1772-1809 | ten groups gathered into parts of 28, 28 and 14 bits and joined into two words are the value of the groups modulo 2^64; an error exactly when the tenth group asks for another or nothing is left to read |
| ByteBuffers.WordsJoin | Sources/WebClient/js/ByteBufferAB.js:1799 | the bitwise joins of the parts, shifted by 28, 4 and 24 in 32 bits, are the two words of the weighted sum of the parts |
| ByteBuffers.ByteBuffer.WriteVString | Sources/WebClient/js/ByteBufferAB.js:2221-2254 | appends the counted length and the bytes of every string whose loop ends, the error for a wrong count is never thrown, and a strict UTF-8 decoder gets the code points back exactly if the string is well-formed |
| ByteBuffers.ByteBuffer.Append | Sources/WebClient/js/ByteBufferAB.js:2310-2337 | appends what the source holds, also when the source is a slice of the same bytes |
| Utf.LoopEnds | Sources/WebClient/js/ByteBufferAB.js:3532-3548 | the loop runs for ever exactly when a surrogate left unpaired by the scan is followed by a plain unit, and otherwise stops within one turn more than there are units, with the code points |
| Utf.NeverEnds | Sources/WebClient/js/ByteBufferAB.js:3532-3548 | the two units D800 0041 keep the loop running for any number of turns |
| Utf.UTF16toUTF8 | Sources/WebClient/js/ByteBufferAB.js:3532-3548 | the loop itself computes the code points where it ends |
| Utf.TextRoundTrip | Sources/WebClient/js/ByteBufferAB.js:3468-3570 | where the loop ends a string survives exactly when no pair starts with a unit above 0xDFBF |
| Utf.LosesBit | Sources/WebClient/js/ByteBufferAB.js:3468-3570 | the two units DFC0 DC00 do not come back |
| Utf.WellFormedSurvives | Sources/WebClient/js/ByteBufferAB.js:2221-2294 | every well-formed UTF-16 string survives |
| Utf8.PointBytes | Sources/WebClient/js/ByteBufferAB.js:3468-3489 | the bytes of every code point have the forms of section 3 of RFC 3629: as many as needed, each with its marker, and the bits of the code point below the markers |
| Utf8.ValidExactly | Sources/WebClient/js/ByteBufferAB.js:2221-2254 | a decoder that refuses all that section 3 of RFC 3629 forbids gives back the code points of every well-formed string and refuses every other |
| Utf8.DecodesValid | Sources/WebClient/js/ByteBufferAB.js:3503-3529 | on all valid UTF-8, whoever wrote it, the lenient decoder gives the units of the strict decoder's code points |
| Utf8.DecodeRefuses | Sources/WebClient/js/ByteBufferAB.js:3503-3529 | a byte that starts nothing and a character that is cut short are refused |
| Utf8.Samples | Sources/WebClient/js/ByteBufferAB.js:3468-3489 | one character of each length |
| Utf.PointsLengthExact | Sources/WebClient/js/ByteBufferAB.js:3603-3632 | the length calculated beforehand is the number of bytes written |
| Proto.ValueLength | Sources/WebClient/js/ProtoBuf.js:1893-1938 | the calculated length of any value is that of its encoding |
| Proto.FieldLength | Sources/WebClient/js/ProtoBuf.js:3570-3616 | the same for any field: singular, repeated, packed, map |
| Proto.SlotsLength | Sources/WebClient/js/ProtoBuf.js:3102-3112 | calculate equals the bytes that encode writes, for every message tree |
| Proto.WrittenAlways | Sources/WebClient/js/ProtoBuf.js:3446-3448 | in proto2 every value that is set is written, tag first |
| Proto.WrittenUnlessZero | Sources/WebClient/js/ProtoBuf.js:3446-3485 | in proto3 a value is left out exactly when it is the zero of a scalar type |
| Proto.ScalarBytes | Sources/WebClient/js/ProtoBuf.js:1949-1992 | an int32 is written as the int64 of the same value, a flag as 0 or 1 |
| ProtoEncoder.WriteValue | Sources/WebClient/js/ProtoBuf.js:1949-2062 | appends exactly the encoding, or reports a required field missing at any depth |
| ProtoEncoder.WriteField | Sources/WebClient/js/ProtoBuf.js:3497-3562 | appends exactly the records of the field; a singular value always has one unless it is a proto3 zero |
| ProtoEncoder.WritePacked | Sources/WebClient/js/ProtoBuf.js:3507-3524 | tag, length and elements, with everything before them untouched |
| ProtoEncoder.CloseLength | Sources/WebClient/js/ProtoBuf.js:3514-3524 | moving the contents up through a slice of the same bytes, with or without a resize, leaves the length and the contents in place |
| ProtoEncoder.WriteSlots | Sources/WebClient/js/ProtoBuf.js:3075-3093 | all fields in order; an error exactly when a required field is missing somewhere or a proto3 field that is not a message is null |
| ProtoEncoder.Encode | Sources/WebClient/js/ProtoBuf.js:2614-2650 | the bytes of a whole message, as many as calculate says |
| ProtoDecode.ScalarBack | Sources/WebClient/js/ProtoBuf.js:2073-2141 | every scalar comes back as its type holds it, and exactly its bytes are read; a negative int32 is ten bytes |
| ProtoSkip.SkipsUnknown | Sources/WebClient/js/ProtoBuf.js:3122-3201 | an unknown payload of any wire type is passed over by exactly its length if and only if it is no group with a nonempty group in it |
| ProtoSkip.NotPastEnd | Sources/WebClient/js/ProtoBuf.js:3122-3153 | from any place in the stream the skipping loop fails or stops at the latest at the first end tag whose start tag lies before that place |
| ProtoSkip.SkipsFlat | Sources/WebClient/js/ProtoBuf.js:3122-3153 | an unknown group whose groups are empty is skipped to its own end tag |
| ProtoSkip.StopsEarly | Sources/WebClient/js/ProtoBuf.js:3138-3140 | an unknown group with a nonempty group in it fails or is left before its end tag |
| ProtoRoundTrip.ValueBack | Sources/WebClient/js/ProtoBuf.js:2073-2163 | values, nested messages and groups decode to what is expected of them |
| ProtoRoundTrip.FieldBack | Sources/WebClient/js/ProtoBuf.js:3628-3688 | decoding the records of one field fills its slot and no other |
| ProtoRoundTrip.MessageBack | Sources/WebClient/js/ProtoBuf.js:3164-3229 | a message inside any frame, ended by length, by end tag or by the buffer, decodes to its fields and populated defaults |
| ProtoRoundTrip.ForwardCompatible | Sources/WebClient/js/ProtoBuf.js:3164-3229 | a decoder that lacks any fields at any depth gets exactly the rest of the message and reads all bytes |
| ProtoRoundTrip.RoundTrip | Sources/WebClient/js/ProtoBuf.js:3075-3229 | decoding an encoded message gives the message, if its numbers lie in the range of their types, absent fields have no default and proto3 zeros are their defaults |
| ProtoDefaults.DecodedSlots | Sources/WebClient/js/ProtoBuf.js:3216-3227 | after any successful decoding, a known field is absent only if it is not required and has no default |
| ProtoDefaults.RequiredNeedsRecord | Sources/WebClient/js/ProtoBuf.js:3216-3227 | whatever the bytes, decoding fails when the loop comes to no record of a required field without a default |
| ProtoDefaults.DecodedTags | Sources/WebClient/js/ProtoBuf.js:3168-3215 | whatever the bytes, decoding fails at a record whose wire type is not its field's and at the end tag of another group |
| ProtoDefaults.LastRecordWins | Sources/WebClient/js/ProtoBuf.js:3205-3213 | the last record of a singular field decides |
| ProtoDefaults.LastEntryWins | Sources/WebClient/js/ProtoBuf.js:3203-3206 | a later map entry takes the place of the one with its key and leaves the others |
| ProtoDefaults.FrameDefaults | Sources/WebClient/js/ProtoBuf.js:3216-3227 | decoding an encoded message that lacks fields, in any frame, fails exactly when a required one without a default is lacking; otherwise each lacking singular field holds its default, or stays absent without one |
| ProtoDefaults.AbsentFields | Sources/WebClient/js/ProtoBuf.js:3216-3227 | the same for a whole buffer |
| ProtoDefaults.OmittedZero | Sources/WebClient/js/ProtoBuf.js:3216-3227 | a zero that proto3 did not write comes back as the default |
| ProtoDefaults.VersionEncodes | Sources/WebClient/js/bitmesh.js:571-586 | the bytes of client version 1.1 |
| ProtoDefaults.MinorDefaults | Sources/WebClient/js/ProtoBuf.js:3225-3226 | a server version without a minor number has minor number 0 |
| ProtoDefaults.MajorRequired | Sources/WebClient/js/ProtoBuf.js:3219-3224 | one without a major number is refused |
| ProtoRoundTrip.NestedGroupRefused | Sources/WebClient/js/ProtoBuf.js:3138-3140 | six bytes with a group in an unknown group are refused by every such schema |
| Long64.Add | Sources/WebClient/js/Long.js:621-650 | the limb sum is the sum modulo 2^64 |
| Long64.Negate | Sources/WebClient/js/Long.js:609-613 | the negative modulo 2^64, MIN_VALUE included |
| Long64.AddValue | Sources/WebClient/js/Long.js:621-650 | the signed value of a sum, and no wrap where it fits |
| Long64.SubtractValue | Sources/WebClient/js/Long.js:658-662 | the signed value of a difference |
| Long64.Compare | Sources/WebClient/js/Long.js:588-602 | the sign of the comparison is that of the values |
| Long64.FromNumber | Sources/WebClient/js/Long.js:151-164 | whole numbers exactly, saturating outside the range |
| Long64.Columns | Sources/WebClient/js/Long.js:693-727 | no column sum reaches 2^32, so no carry is lost |
| Long64.MultiplyExact | Sources/WebClient/js/Long.js:670-729 | the product modulo 2^64 on every path |
| Long64.MultiplyValue | Sources/WebClient/js/Long.js:670-729 | the signed value of a product |
| LongDivision.Trial | Sources/WebClient/js/Long.js:774-799 | for every guess at most 2^-51 of itself too large the inner loop ends with a quotient between one and the true one; products never wrap past 2^64 and the fix-up for zero is not needed |
| LongDivision.DivPositive | Sources/WebClient/js/Long.js:765-806 | the outer loop ends with the exact quotient |
| LongDivision.Div | Sources/WebClient/js/Long.js:737-807 | truncated division for all operands; an error exactly for zero; MIN_VALUE by -1 wraps |
| LongDivision.TruncLeaves | Sources/WebClient/js/Long.js:737-807 | what the truncated quotient leaves is less than the divisor and has the sign of the dividend |
| LongDivision.Modulo | Sources/WebClient/js/Long.js:815-819 | the remainder, less than the divisor and with the sign of the dividend |
| LongText.ToString | Sources/WebClient/js/Long.js:372-409 | chunks of six padded digits make the plain numeral in every radix, MIN_VALUE included |
| LongText.NoLeadingZero | Sources/WebClient/js/Long.js:372-409 | no numeral but that of zero starts with a zero |
| LongText.FromString | Sources/WebClient/js/Long.js:187-223 | chunks of eight digits denote the numeral modulo 2^64; exactly when it throws |
| LongText.RoundTrip | Sources/WebClient/js/Long.js:187-409 | parsing what was printed gives the number back, for all 64-bit values and radixes |
| ReedSolomon.QrMath.constructor | Sources/WebClient/js/jquery.qrcode.js:1332-1376 | the tables hold the powers of the generator and their logarithms |
| Galois.AlphaEight | Sources/WebClient/js/jquery.qrcode.js:1341-1346 | the first power that the field polynomial reduces |
| ReedSolomon.Multiply | Sources/WebClient/js/jquery.qrcode.js:1382-1445 | the product of two polynomials, with the error of a zero coefficient |
| ReedSolomon.Mod | Sources/WebClient/js/jquery.qrcode.js:1382-1445 | the recursion ends with a remainder congruent at every root of the divisor; exactly when it throws |
| ReedSolomon.GetErrorCorrectPolynomial | Sources/WebClient/js/jquery.qrcode.js:1166-1172 | the monic generator with the n powers as its roots |
| ReedSolomon.GeneratorHasZero | Sources/WebClient/js/jquery.qrcode.js:1166-1172 | up to 255 check bytes the generator has a zero coefficient exactly for 255 |
| ReedSolomon.ErrorBytes | Sources/WebClient/js/jquery.qrcode.js:759-767 | data and check bytes vanish at the first n powers; exactly when there are check bytes |
| ReedSolomon.ErrorBytesUnique | Sources/WebClient/js/jquery.qrcode.js:759-767 | no other check bytes complete a block to a codeword |
| ReedSolomon.CodewordsAreMultiples | Sources/WebClient/js/jquery.qrcode.js:759-767 | data and check bytes vanish at the roots exactly when they are a multiple of the generator |
| QrGrid.PathCovers | Sources/WebClient/js/jquery.qrcode.js:683-732 | the zigzag visits exactly the modules outside column 6 |
| QrGrid.PathDistinct | Sources/WebClient/js/jquery.qrcode.js:683-732 | no module is visited twice |
| QrGrid.PlacedAndRead | Sources/WebClient/js/jquery.qrcode.js:683-732 | function modules stay, every free module is written once, and reading back without the mask gives the data bits and then zeros |
| QrGrid.PathAt | Sources/WebClient/js/jquery.qrcode.js:683-732 | a closed form of the visit: pair p, turn i and side b give row n - 1 - i or i as p is even or odd, in the p-th pair of columns without column 6 |
| QrGrid.PathInOrder | Sources/WebClient/js/jquery.qrcode.js:683-732 | the visit goes by rank: pairs from right to left, up and down in turn, the right module first |
| QrGrid.MapData | Sources/WebClient/js/jquery.qrcode.js:683-732 | the loops over columns, rows and pairs perform that walk |
| QrGrid.BitIs | Sources/WebClient/js/jquery.qrcode.js:697-699 | bit t of the data is bit 7 - t % 8 of byte t / 8 |
| QrGrid.CodeBytes | Sources/WebClient/js/jquery.qrcode.js:683-732 | eight free modules in a row of a finished code, without the mask and highest bit first, are a byte of the data |
| QrGrid.SetupProbe | Sources/WebClient/js/jquery.qrcode.js:542-561 | the finder pattern and its border, cut at the edge, and nothing else |
| QrGrid.FinderRings | Sources/WebClient/js/jquery.qrcode.js:551-557 | the finder is a dark square of three, a light ring, a dark ring and a light border |
| QrGrid.SetupTiming | Sources/WebClient/js/jquery.qrcode.js:583-598 | the timing pattern where nothing was set |
| QrGrid.TimingAlternates | Sources/WebClient/js/jquery.qrcode.js:583-598 | it begins and ends dark and changes from module to module |
| QrGrid.MakeImpl | Sources/WebClient/js/jquery.qrcode.js:510-540 | for every odd size from 21 on the finder, timing and further patterns stand as they were set, no module is null, and reading the free modules by rank without the mask gives the data bits and then zeros |
| QrGrid.ColumnSixSet | Sources/WebClient/js/jquery.qrcode.js:542-598 | finder and timing patterns leave no free module in the column that the zigzag leaves out |
| BitStream.BitOutputStream.Write | Sources/WebClient/js/jquery.qrcode.js:2106-2139 | appends the low bits first, and throws exactly when the number is too wide |
| BitStream.BitOutputStream.Flush | Sources/WebClient/js/jquery.qrcode.js:2106-2139 | pads the last byte with zeros |
| Lzw.CodesDecode | Sources/WebClient/js/jquery.qrcode.js:2141-2199 | a decoder one code behind, with a table of its own up to 4096 words, recovers the pixels from the data codes |
| Lzw.WidthFits | Sources/WebClient/js/jquery.qrcode.js:2175-2187 | every code in the table fits the width in use |
| Lzw.RasterDecodes | Sources/WebClient/js/jquery.qrcode.js:2141-2199 | the byte stream decodes to the pixels exactly when its end code can be read, and otherwise to nothing |
| Lzw.TwoBitsDecode | Sources/WebClient/js/jquery.qrcode.js:2083-2199 | at two bits a pixel the stream decodes to the pixels exactly when they do not compress to eleven codes |
| Lzw.TwoBitEnds | Sources/WebClient/js/jquery.qrcode.js:2175-2196 | of all code counts at which the width grows only eleven leaves no bits over a whole byte |
| Lzw.LargeRastersDecode | Sources/WebClient/js/jquery.qrcode.js:2083-2199 | at two bits a pixel every image of one to ten or of more than 66 pixels decodes |
| Lzw.OnePixel | Sources/WebClient/js/jquery.qrcode.js:2141-2199 | the two bytes of a single pixel |
| Lzw.EndCodeLost | Sources/WebClient/js/jquery.qrcode.js:2191-2196 | eleven pixels whose stream has no readable end code |
| Lzw.LzwTable.Add | Sources/WebClient/js/jquery.qrcode.js:2201-2231 | the next index for a new word, an error exactly for a known one |
| Lzw.GetLZWRaster | Sources/WebClient/js/jquery.qrcode.js:2141-2199 | the compressor never throws and its bytes are the code stream |

## Left out

- bitcore: keys, scripts, signatures and fees are values and predicates given with the events; its calls are taken not to throw except where a validation fails or a commitment has no inputs.
- Provider: the server half of bitcore-channel does not meet this client's payments and is not modelled.
- WebSocket, page, timers and clock: events; whether a payment is due is part of the timer event, so the time counters are not modelled.
- Messages that lack their sub-message, and public keys and refund signatures that do not parse: they throw before anything changes.
- ChannelClient.Client: the price terms and the funding variables are one record field each, and the second also holds the commitments so far, which the page does not keep.
- ChannelTheorems.UpdatesAreFew: counts the updates that lower the change; after the last of them, updates of size zero may follow whenever the channel is opened or the user reconnects.
- Floats and doubles, oneofs, packed on types that cannot be packed, extensions, accessors and JSON of the Protocol Buffers library.
- ProtoRoundTrip.ForwardCompatible: groups inside an unknown group must be empty on the wire, buffers are below 2^31 bytes, and map keys must differ after conversion; ProtoSkip.SkipsUnknown shows the first condition necessary for passing over the group, not for what a whole decode makes of the bytes behind it.
- ProtoRoundTrip.MessageBack: the decoder takes fuel, because a negative length could send its offset backwards for ever; the theorems hold for every fuel above the number of bytes.
- ProtoMessage.DecodeEntry: a map value of a message type that is absent on the wire is an empty message, where the library has null; values are not verified again when a map takes them.
- ProtoDecode.DecodeBytes: a negative length gives no bytes, where the library returns a buffer whose limit lies before its offset.
- ByteBuffers.ByteBuffer.Resize: does not model the 32-bit truncation of a capacity at and above 2^31.
- Long: unsigned division, comparison of mixed signedness, shifts by other than one, bitwise operators, and numbers that are not whole.
- LongDivision.Trial: the floating-point quotient and logarithm are any functions within the stated error; IEEE arithmetic itself is not modelled.
- Lzw.GetLZWRaster: words that spell a property of every JavaScript object would be taken for table entries; that needs pixels of seven bits or more, and the writer uses two.
- QR code: block interleaving, version and mask choice, the alignment and type patterns (any modules set before the data stand for them), and drawing.
- Reed-Solomon: the split of data into blocks.
