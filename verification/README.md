# A model of a WebSocket implementation in Dafny

This project models the framing, connection and extension layers of an asynchronous RFC 6455 library (soketto) and
proves what they promise, from the bits of a frame header up to whole sessions.

The model has three layers.

* **Specification functions.** `Base`, `Protocol`, `Inflation`, `Deflate` and `Handshake` give every operation as a
  function of its inputs. `Protocol.Iterate` is one round of the loop in `Receiver::receive`; a round works on the bytes
  still to be received, which are split between the read buffer and the unread stream.
* **Imperative code.** The classes `Base.Codec`, `Deflate.Deflate`, `Connection.Receiver`, `Connection.Sender` and
  `RequestSearch.Server` have the fields of the original and update them in place, with the loops of the original. Reads
  deliver any number of bytes the reader likes, the writer may break at any byte, and mask keys are arbitrary. Each
  method's contract ties the whole new state and the result to a specification function. Since that function does not
  know how many bytes each read delivered, each such contract also says that reads of any size lead to the same result.
* **Theorems about the functions**, in the modules named after their subject: header laws, the wire format bit by bit,
  writing, reading, reassembly, fragmentation, grammar, chunking, accounting, closing, coupling with the deflate
  extension, delivery between two endpoints, the life of one end, the writer lock, both directions at once, the printed
  extension header, negotiation, and a session that runs from the client's settings through the printed handshake to
  compressed messages in either direction.

Bytes are natural numbers below 256, lengths are natural numbers, and `usize` is 64 bits wide. Where the original
saturates or wraps, the model does so explicitly (`SaturatingAdd`, `Growth`). The inflater, the compressor, the mask keys
and the point at which a writer breaks are parameters. An I/O error is the end of the stream or a writer that breaks.

## Where the code does not do what one may expect

These are properties that do not hold of the code without a condition. The model keeps the code as it is, and the named
lemma gives the exact condition.

* A message with Pings and Pongs between its fragments is what `receive_data` returns next if and only if no Pong comes
  after its first fragment; otherwise it is lost, and the call fails at the next fragment: `Runs.DeliveredUnlessPong`,
  `Grammar.PongLosesMessage`. `Grammar.PongBetweenFragments` names such a message.
* An oversized message is skipped up to the next frame if and only if no payload byte of it was accepted before and the
  read buffer holds nothing beyond the frame's header: `Accounting.ResyncExactly`.
* With the deflate extension, a compressed message is inflated as RFC 7692 wants it if and only if the caller passes an
  empty message and the first fragment is not empty: `Coupling.InflatesExactly`.
* A call that ends inside a compressed message leaves the extension's flag up, whatever it ends with (a Pong, a Close, a
  frame out of place, an oversized frame, a bad header or the end of the stream); otherwise the flag is what it was:
  `Coupling.FlagLeft`, `Coupling.FlagWhenTooLarge`, `Coupling.FlagAtEnd`. With the flag up, the next message of several
  fragments is inflated although it is not compressed: `Coupling.StrayInflation`.
* A client that sets different maximum window sizes for the server one after the other does not enable the extension, but
  the server does: `Negotiation.Agreement`. What that server sends arrives if and only if nothing it sends is compressible:
  `Session.SessionDelivers`.
* A server whose extension was enabled by one offer stays enabled when it rejects a second one
  (`Negotiation.ServerEnablesExactly`), and then answers the acceptable beginning of the rejected offer and uses its
  windows: `Negotiation.ServerAfterOffers`, with the offers of `Negotiation.RejectedOfferAnswered`. Exactly when it is as
  if only the last offer had been made, says `Negotiation.LastOfferCounts`.
* A Close whose reason is not UTF-8 is not answered and does not close the receiver; a Close with no code is answered,
  but the call then reports the connection as closed instead of returning a reason: `Closing.OnClose`.
* A receiver answers a Close even if its own side sent one before. If the writer still takes bytes after it was closed,
  the side that starts the closing handshake sends two Close frames (`Closing.CloseHandshake`), and an end whose receiver
  was closed has sent exactly one Close if and only if its own `close` was not called (`Endpoint.ClosesSent`). If closing
  the writer makes it take nothing more, an end sends exactly one Close if `close` was called or its receiver was closed,
  none otherwise, and nothing after it (`Endpoint.ClosesSentOnce`, `Endpoint.NothingAfterShut`).
* The code 1015, which RFC 6455 reserves, is accepted from the wire: `Closing.AnswersCode`.
* The decoder's error for unknown opcodes cannot occur: `HeaderLaws.NeverUnknown`.

## Model

The theorems about runs assume that the connection works: `Reassembly.Healthy` says that the writer takes every byte,
flushing succeeds, and the maximum message size is a machine word. The rows of `Reassembly`, `Fragmentation`, `Grammar`,
`Coupling`, `Runs`, `Delivery`, `Duplex` and `Session` about calls need it, and so do `Closing.RunReplies` and, until the
writer is closed, `Endpoint`; `Closing.OnClose` and the rows that build on it also cover a writer that takes nothing more.
The other rows, among them all methods, hold for writers that break at any byte.

| member | source | states |
|---|---|---|
| HeaderLaws.OpCodeRoundTrip | src/base.rs:132-179 | the two conversions between opcodes and numbers undo each other, and exactly the numbers below 16 are opcodes |
| HeaderLaws.HeaderRoundTrip | src/base.rs:376-519 | decoding the encoding of a header the codec admits, followed by any bytes, gives that header and stops at its end |
| HeaderLaws.HeaderRoundTripExactly | src/base.rs:376-519 | a header comes back from its encoding if and only if the codec admits it (opcode, control frame rules, reserved bits, maximum length, mask) |
| HeaderLaws.RejectsInOrder | src/base.rs:388-445 | any other printed header is rejected with the error of its first objection, in the order opcode, fragmentation, reserved bits 1 to 3, control length, payload length |
| HeaderLaws.NeverUnknown | src/base.rs:386 | no bytes are rejected for an unknown opcode |
| HeaderLaws.DecodeExtends | src/base.rs:376-462 | a decision on a prefix holds for every extension of it; a request for more is positive, shrinks by what arrives, and is never more than a header needs |
| HeaderLaws.DecodedFields | src/base.rs:381-461 | whatever is decoded is admitted, its fields are those of the bytes, and it ends where the second byte says |
| HeaderLaws.CanonicalReencoding | src/base.rs:418-449 | re-encoding a decoded header is never longer, decodes to the same header, and gives the received bytes exactly if those used the shortest length form |
| WireFormat.FirstByteMeans | src/base.rs:468-486 | the final flag, the three reserved bits and the opcode's number are where section 5.2 of RFC 6455 puts them |
| WireFormat.LengthMeans | src/base.rs:488-516 | the mask flag, the length as a positional number in one of its three forms, and the key as the last four bytes, most significant first |
| WireFormat.MaskMeans | src/base.rs:522-529 | bit `j` of masked byte `i` differs from that of the data exactly if bit `j` of key byte `i` modulo 4, as it stands on the wire, is set |
| WireFormat.Examples | src/base.rs:465-519 | headers of section 5.7 of RFC 6455, byte by byte |
| Base.MaskInvolution | src/base.rs:522-529 | masking twice with the same key changes nothing |
| Base.Codec.constructor | src/base.rs:331-335 | a new codec has no reserved bits and a limit of 256 MiB |
| Base.Codec.AddReservedBits | src/base.rs:358-368 | exactly the given bits are added to those in use, and the limit stays |
| Base.Codec.EncodeInto | src/base.rs:465-519 | the scratch buffer starts with the header's encoding, of the returned length, at most 14 bytes |
| Base.Codec.ApplyMask | src/base.rs:522-529 | the bytes from the start index on are masked cyclically in place, the ones before are not touched |
| Io.Read | src/lib.rs:176-189 | appends the next bytes of the stream, at least one and at most the maximum, or fails at its end and leaves the buffer as it was |
| Io.Reader.Discard | src/connection.rs:696-698 | skips that many bytes, or all if there are fewer |
| Utf8.WellFormedExactly | src/connection.rs:597 | the close reasons that pass are exactly the encodings of sequences of Unicode scalar values |
| Reading.ShortReadsSameHeader | src/connection.rs:344-355 | a read that delivers less than asked for does not change the next header or what is left after it |
| Reading.NextHeaderOfInput | src/connection.rs:344-355 | the next header is that of buffer and stream taken together, is taken from the buffer first, and no byte beyond it leaves the reader |
| Reading.IterateFrame | src/connection.rs:216-331 | one round of the loop on an input that starts with a frame's wire form handles exactly that frame, unmasked |
| Connection.Write | src/connection.rs:546-587 | the wire grows by the header and the payload, masked with a fresh key on the client side only, as far as the writer takes it; success if it takes all; a buffer that is not shared is left masked unless the header did not go through |
| Writing.WritesFrame | src/connection.rs:555-586 | with a working writer the wire grows by exactly one frame, which a peer decodes to the header and the data; it is masked exactly on the client side, with the key drawn for it, and each frame has a key of its own |
| Writing.WritesReply | src/connection.rs:376-416 | a receiver's replies are such frames: final, no reserved bits, masked exactly on the client side |
| Writing.WritesBeginning | src/connection.rs:563-586 | whatever the writer takes, the wire grows by a beginning of the frame, and there is no error exactly if by all of it |
| Writing.BufferIsOnWire | src/connection.rs:571-586 | after a successful send, an owned buffer holds what the wire ends with, and so does a borrowed one, unless the data was encoded |
| Writing.FailedEncoding | src/connection.rs:528-533 | sending fails in the extension exactly if the flushed output of a non-empty message does not end with 00 00 FF FF; then nothing is written and no key is used |
| Connection.AddExtension | src/connection.rs:140-149 | only an enabled extension is used, and exactly then its reserved bit is claimed |
| Connection.Receiver.constructor | src/connection.rs:173-185 | a new receiver is open and starts with the bytes the handshake read ahead |
| Connection.Receiver.ReceiveHeader | src/connection.rs:344-355 | the header, the buffer and the stream are those of reads that deliver all they were asked for, or the same error |
| Connection.Receiver.ReadBuffer | src/connection.rs:358-367 | the payload is complete in the buffer and not a byte more was read, or the stream ended before it was |
| Connection.Receiver.OnControl | src/connection.rs:374-438 | answer, error, closed flag and reason of a Ping or Close are those of the specification |
| Connection.Receiver.DecodeWithExtensions | src/connection.rs:441-450 | message and flag are what the extension makes of the whole message; nothing happens without one |
| Connection.Receiver.ReadPayload | src/connection.rs:252-281 | the message grows by the unmasked payload, taken from the buffer first; the earlier bytes of the message are not unmasked again |
| Connection.Receiver.ReceiveControl | src/connection.rs:226-239 | a control frame leaves the state, and ends or continues the call, as the specification says |
| Connection.Receiver.Assemble | src/connection.rs:283-330 | the four cases of the fragmentation automaton |
| Connection.Receiver.ReceiveFragment | src/connection.rs:241-330 | a data frame, also an oversized or truncated one, leaves the state as the specification says |
| Connection.Receiver.Receive | src/connection.rs:212-332 | for reads of any size the whole new state and the result are those of the specification |
| Connection.Receiver.ReceiveData | src/connection.rs:335-341 | the same for the loop that skips Pongs; it ends because every call that returns something takes bytes from the input |
| Protocol.ReceiveConsumes | src/connection.rs:212-332 | a call that does not fail has taken bytes from the input |
| Connection.Sender.constructor | src/connection.rs:187-195 | a new sender has its own mask buffer |
| Connection.Sender.SendFrame | src/connection.rs:523-534 | the extension's output is written, or nothing if it fails; the extension's negotiated state and flag stay; what an owned and a borrowed buffer hold afterwards |
| Connection.Sender.SendText | src/connection.rs:464-467 | a text frame with the data is written through the extension |
| Connection.Sender.SendTextOwned | src/connection.rs:472-475 | the same for an owned buffer, which holds the encoded and masked data afterwards |
| Connection.Sender.SendBinary | src/connection.rs:478-481 | a binary frame with the data is written through the extension |
| Connection.Sender.SendBinaryMut | src/connection.rs:487-490 | the same for a borrowed buffer, which is masked in place without the extension and left as it was if the data is encoded |
| Connection.Sender.SendPing | src/connection.rs:493-496 | a Ping of at most 125 bytes is written, past the extension |
| Connection.Sender.SendPong | src/connection.rs:499-502 | a Pong of at most 125 bytes is written, past the extension |
| Connection.Sender.Close | src/connection.rs:511-518 | a Close with code 1000 is written; success if writing and flushing succeed |
| Reassembly.LoopOver | src/connection.rs:216-303 | any frames inside a message, with Pings between them, only bring the loop to a later state |
| Reassembly.AbsorbIsAfter | src/connection.rs:226-303 | that state in closed form: the payloads joined the message and every Ping was answered, in order, with its payload |
| Reassembly.Reassembles | src/connection.rs:212-332 | a message in any number of fragments, each with its own key, with any Pings between them, arrives as the concatenation of the payloads, of the first fragment's kind, and the call stops at its end |
| Fragmentation.FragmentsAreMessage | src/connection.rs:283-322 | any cut of data into pieces gives frames that are a message of section 5.4 |
| Fragmentation.AnyCutArrives | src/connection.rs:212-332 | data cut in any way into any number of pieces, each masked with its own key, arrives whole, as what it was sent as, in one call |
| Grammar.UnexpectedExactly | src/connection.rs:283-322 | a call fails with an unexpected opcode if and only if a data frame breaks the fragmentation grammar, and names the first one that does; what comes behind the frames may be anything, if they leave the call inside a message anything without a whole frame |
| Grammar.FirstPongEndsCall | src/connection.rs:226-233 | a call that is given a message the RFC allows ends with the first Pong in it |
| Grammar.PongLosesMessage | src/connection.rs:213-341 | after a Pong between fragments the next fragment is rejected, whatever message the caller passes and whatever Pings and Pongs come before that fragment |
| Grammar.PongBetweenFragments | src/connection.rs:213-233 | there is such a message: a fragment, a Pong and the last fragment |
| Chunking.ChunkingIndependence | src/connection.rs:252-367 | result, message, replies and flags depend only on buffer and stream together, and so do the bytes left over, except after an oversized message |
| Accounting.TakesWholeFrames | src/connection.rs:344-367 | a call takes whole frames, from the buffer first, and moves nothing from the stream into the buffer that it does not use, also if it fails in answering a control frame; before an oversized message it takes whole frames and the header; it says nothing of calls stopped by a bad header or, with the receiver open, by the end of the stream |
| Accounting.NoOverRead | src/connection.rs:344-367 | a read buffer that is empty before such a call is empty after it |
| Accounting.SizeConservation | src/connection.rs:214-324 | without an extension the caller's bytes stay, the message never grows beyond the maximum, and the returned size is its growth |
| Accounting.StepConserves | src/connection.rs:241-324 | before every frame the message has grown by exactly the payload bytes accepted so far |
| Accounting.ResyncExactly | src/connection.rs:241-250 | the oversize branch lands on the next frame for every continuation of the stream if and only if the buffer holds nothing beyond the header and no payload byte was accepted before |
| Accounting.OversizeIsSkipped | src/connection.rs:241-250 | with an empty buffer an unfragmented oversized message leaves the state as if it had not been sent |
| Accounting.OversizeReported | src/connection.rs:241-249 | the error names the bytes accepted so far and the frame's together, or the largest 64-bit number if they are more |
| Accounting.TruncatedFrame | src/connection.rs:252-276 | a payload that the end of the stream cuts off: the call fails, and the message, or for a control frame the buffer, has the bytes as they came and zeroes up to the announced length |
| Accounting.GrowthIsModular | src/connection.rs:324 | the returned size is the growth modulo 2 to the 64 |
| Closing.OnClose | src/connection.rs:386-423 | what a Close does, also inside a message: state, answer and result for each kind of payload, with a writer that takes everything or nothing more |
| Closing.ClosesWithCode | src/connection.rs:387-422 | a Close with a code and a reason, byte by byte: the answer carries the code, or 1002 if nobody may send that code, and no reason; the call returns the code and the reason, or 1002 without one |
| Closing.ClosesWithoutCode | src/connection.rs:404-422 | a Close without a code is answered with an empty Close; the receiver is closed, and the call fails with a closed connection |
| Closing.RefusesReason | src/connection.rs:388 | a Close whose reason is not UTF-8 is not answered, and the receiver stays open |
| Closing.PingNeedsWriter | src/connection.rs:376-384 | with any writer: the loop goes on behind a Ping exactly if the whole Pong was taken and flushing succeeds; otherwise the call fails and the receiver stays open |
| Closing.CloseNeedsFlush | src/connection.rs:389-422 | with any writer: what it takes of the answer to a Close does not matter; the receiver is closed exactly if flushing succeeds |
| Closing.AnswersCode | src/connection.rs:591-616 | a code comes back with its reason unless it is forbidden; then the answer is 1002 without a reason |
| Closing.AnsweredCodeIsFixed | src/connection.rs:591-616 | the code of an answer is one that would be answered with itself |
| Closing.StaysClosed | src/connection.rs:217-220 | a closed receiver returns at once and neither reads nor writes |
| Closing.ClosedRun | src/connection.rs:217-220 | so do all later calls |
| Closing.RunReplies | src/connection.rs:374-423 | over any run of calls on any input the receiver writes whole frames: Pongs, and exactly one Close, the last frame, if it is closed at the end |
| Closing.CloseHandshake | src/connection.rs:386-423 | after `close` the calls on both sides return a normal closure and leave both receivers closed; the wire of the closing side has its Close and, if the writer still takes bytes, a second one |
| Endpoint.ClosesSent | src/connection.rs:374-518 | if the writer still takes bytes after it was closed: over any calls of one end's Sender and Receiver, on any input, the wire grows by whole frames with one Close per call of `close` and one more if the receiver was closed; so exactly one for a closed receiver if and only if `close` was not called |
| Endpoint.NothingAfterShut | src/connection.rs:416-517 | if closing the writer makes it take nothing more: an end that closed it writes nothing in any later calls |
| Endpoint.ClosesSentOnce | src/connection.rs:374-518 | for such a writer, over any calls from an open end on: whole frames, with exactly one Close if `close` was called or the receiver was closed, and none otherwise |
| Deflate.Deflate.constructor | src/extension/deflate.rs:50-70 | a new extension has windows of 15 bits, is not enabled, and on the client side asks for three parameters |
| Deflate.Deflate.SetMaxServerWindowBits | src/extension/deflate.rs:81-88 | sets the bound for the server and appends a parameter, also a second time |
| Deflate.Deflate.SetMaxClientWindowBits | src/extension/deflate.rs:102-113 | sets the client's window and replaces the parameter, or appends it |
| Deflate.Deflate.SetTheirMaxWindowBits | src/extension/deflate.rs:115-130 | a number outside 8 to 15 or beyond the expected bound is rejected; 8 becomes 9; no number changes nothing |
| Deflate.Deflate.ConfigureServer | src/extension/deflate.rs:148-184 | the loop over an offer's parameters is the specification's recursion |
| Deflate.Deflate.ConfigureClient | src/extension/deflate.rs:185-220 | the loop over a response's parameters is the specification's recursion |
| Deflate.Deflate.Configure | src/extension/deflate.rs:146-224 | negotiated state after either mode's loop; the flag stays |
| Deflate.Deflate.Decode | src/extension/deflate.rs:230-267 | flag, header and data after a frame, for any inflater; the negotiated state stays |
| Deflate.Deflate.Encode | src/extension/deflate.rs:269-322 | header and data to send, for any compressor; other storage than an owned buffer is replaced, not changed |
| Inflation.DecodesOnce | src/extension/deflate.rs:230-267 | which frames are inflated, on the data followed by 00 00 FF FF, the flag and the header afterwards; everything else is left alone |
| Inflation.EncodesFlushed | src/extension/deflate.rs:269-322 | which frames are compressed; what is sent is the flushed output without its last four bytes, 00 00 FF FF, with RSV1 and the new length; without them it is an error |
| Coupling.AwaitTracksMessage | src/extension/deflate.rs:230-252 | between the frames of a message the flag is up if and only if it was up before or the message's first frame has RSV1 and the caller's message was not empty after it |
| Coupling.MessageFlagged | src/extension/deflate.rs:230-267 | what a message becomes, and the flag after it, with the flag up or down at its beginning |
| Coupling.MessageDecoded | src/extension/deflate.rs:230-267 | with the flag down, a message is inflated once, on everything in the caller's message with the tail restored, if and only if it counts as compressed; otherwise it is not touched; afterwards the flag is down |
| Coupling.FlagLeft | src/extension/deflate.rs:235-252 | the flag after a call that ends at any frame not inside the message: up if and only if it was before or the message begun counts as compressed, unless the message ends there |
| Coupling.FlagWhenTooLarge | src/connection.rs:241-250 | the same for a call that ends with an oversized frame |
| Coupling.FlagAtEnd | src/connection.rs:223-276 | the same for a call that is stopped inside a message by a bad header or the end of the stream |
| Coupling.StrayInflation | src/extension/deflate.rs:244-247 | with the flag left up, the next message of several fragments is inflated although it is not compressed, unless it is empty |
| Coupling.InflatesExactly | src/extension/deflate.rs:231-255 | compressed messages are inflated as section 7.2.2 of RFC 7692 says, whatever the inflater, if and only if the caller's message was empty and the first fragment is not |
| Runs.MessagesArrive | src/connection.rs:212-332 | for any stream of messages, each fragmented, masked, compressed and interleaved with Pings in its own way, the calls return their contents in order |
| Runs.SkipsControl | src/connection.rs:335-341 | `receive_data` returns the next data message after any number of Pings and Pongs, as the extension, if any, decodes it |
| Runs.OnlyData | src/connection.rs:335-341 | `receive_data` returns nothing but texts and binaries |
| Runs.CloseEndsReceiveData | src/connection.rs:335-341 | at a Close, `receive_data` answers and closes the receiver, fails with a closed connection, and leaves the message and the input behind the Close alone |
| Runs.DeliveredUnlessPong | src/connection.rs:213-341 | with or without the extension, `receive_data` returns a message the RFC allows, with its bytes as they are decoded behind what the caller's message held, if and only if no Pong comes after its first fragment; otherwise it fails with an unexpected continuation, whatever the number of Pongs |
| Delivery.SendsFrames | src/connection.rs:464-502 | the wire carries exactly the frames of the calls |
| Delivery.DeliversOne | src/connection.rs:212-332 | the next frame of a call, whatever its key, is returned by the next `receive`, or answered within it |
| Delivery.DeliversFrames | src/connection.rs:212-332 | frames of calls in front of any other input: what they carry is delivered, their Pings are answered, and the later calls see what comes after them |
| Delivery.Delivers | src/connection.rs:201-332 | for any texts, binaries, Pings and Pongs within the limits, any keys, either side, with or without the extension: the peer's calls return exactly the messages and Pong payloads in order, and it writes exactly one Pong for each Ping, with its payload |
| WriterLock.NextKeeps | src/connection.rs:563-586 | every step of either side keeps the wire whole frames plus at most one beginning, which is the lock holder's |
| WriterLock.CutsWires | src/base.rs:376-462 | a peer that cuts bytes into frames gets back exactly the frames that were written |
| WriterLock.FrameAtomicity | src/connection.rs:563-586 | in every interleaving the peer cuts the wire into exactly the completed frames, an order-preserving merge of what both sides were asked to send, plus what the lock holder has written so far |
| Duplex.PongsCarry | src/connection.rs:376-384 | a receiver's answers are Pong frames with the payloads of the Pings, in order |
| Duplex.FullDuplex | src/connection.rs:201-587 | in every interleaving of the two sides' writes, when all is written, the peer's calls return an order-preserving merge of the sender's messages and Pongs and the receiver's Pongs; in particular all the sender's messages in order |
| Duplex.BothDirections | src/connection.rs:201-587 | for two ends that have received all the other wrote and answered it: each end's calls return an order-preserving merge of what the other's sender sent and one Pong for each Ping its own sender sent, with the same payload, in order |
| Extension.ParsesBack | src/extension/deflate.rs:160-168 | a printed window parses to itself |
| Extension.ReadsExactly | src/extension/deflate.rs:116-160 | a value is read as a window exactly if it is a number up to 255 as it is printed, with zeroes or a plus sign in front |
| Handshake.AppendExtensionHeaderValue | src/handshake.rs:116-134 | the buffer grows by the printed extensions |
| Handshake.AppendExtensions | src/handshake.rs:102-113 | with the header's name in front if there is an extension |
| Handshake.ConfigureExtensions | src/handshake.rs:78-99 | the extensions after a line are those the specification gives: split, trim, first extension of that name, first error ends it |
| HeaderText.ParsesPrinted | src/handshake.rs:78-134 | parsing a printed line gives back exactly the names and parameters |
| HeaderText.AppliesEach | src/handshake.rs:79-95 | for any offers and extensions: each extension is configured with exactly the parameters of the offers that name it, in their order, until an offer is refused |
| HeaderText.AppliesInOrder | src/handshake.rs:79-95 | when the offers are the extensions' own: each is configured once, in order, up to the first error; the others stay |
| HeaderText.HeaderRoundTrip | src/handshake.rs:78-134 | the same through the printed line, for any offers made of tokens |
| HeaderText.OwnHeaderRoundTrip | src/handshake.rs:78-134 | when the extensions themselves print the line and their names differ when case is ignored: `configure` is called once each, in order, with exactly the printed parameters |
| HeaderText.SpellingsAgree | src/handshake.rs:85-91 | white space around a parameter's name and value and quotes around its value make no difference |
| HeaderText.ParsesValue | src/handshake.rs:88 | what is trimmed of a value: white space around it, then quotes; white space inside the quotes stays |
| HeaderText.IgnoresSecondEquals | src/handshake.rs:86-91 | a second equals sign and what follows it are ignored |
| HeaderText.IgnoresCaseOnly | src/handshake.rs:83 | names agree if and only if they are the same up to the case of the letters A to Z |
| HeaderText.AsciiWhitespace | src/handshake.rs:82-88 | the ASCII characters that are trimmed |
| HeaderText.PrintedLine | src/handshake.rs:116-134 | a line with two extensions, letter by letter |
| Negotiation.ConfiguringStaysInRange | src/extension/deflate.rs:146-224 | configuring keeps both windows within 9 to 15, and a client never raises its own |
| Negotiation.WindowsStayInRange | src/extension/deflate.rs:81-224 | so do any setter and `configure` calls with any parameters |
| Negotiation.ServerEnablesExactly | src/extension/deflate.rs:148-184 | a server is enabled after an offer if and only if it was before or every parameter is acceptable |
| Negotiation.ClientEnablesExactly | src/extension/deflate.rs:185-222 | a client is enabled after a response if and only if it was before or no context takeover is confirmed, every parameter is one it can live with, and the server windows never rise |
| Negotiation.ClientUsesResponse | src/extension/deflate.rs:185-220 | after a response it accepts, a client uses for itself the smallest of its own window and those the response gives it, and for the server the last window in the response |
| Negotiation.ServerAnswers | src/extension/deflate.rs:148-184 | a server answers the acceptable beginning of an offer and uses the windows given there, whether it accepts the offer or not |
| Negotiation.ServerAfterOffers | src/extension/deflate.rs:148-222 | after any offers: the answer is that to the beginning of the last one, the extension is enabled if one of them was acceptable, and the windows are those given last in any of the beginnings |
| Negotiation.LastOfferCounts | src/extension/deflate.rs:148-222 | earlier offers make no difference if and only if none of them enabled a server that rejects the last one and each window is given by the last one or left alone by the earlier ones |
| Negotiation.RejectedOfferAnswered | src/extension/deflate.rs:148-222 | a concrete pair of offers where the answer belongs to the rejected one |
| Negotiation.ParsedOffers | src/handshake.rs:78-99 | several offers of the extension on a printed line configure it one after the other |
| Negotiation.ServerConfigured | src/extension/deflate.rs:148-184 | how a server takes a client's offer: its answer, its own window and its bound for the client |
| Negotiation.ClientConfigured | src/extension/deflate.rs:185-220 | the client accepts that answer if and only if all server windows it was given are equal |
| Negotiation.Agreement | src/extension/deflate.rs:50-224 | through both printed lines, for any setter calls: the server is enabled, uses the last window it was asked for and bounds the client by the last one the client was given; the client is enabled if and only if it was given one server window only, and then its windows are the same two |
| Negotiation.ClientLine | src/handshake.rs:116-134 | the line a client offers after any setter calls |
| Negotiation.Spelled | src/extension/deflate.rs:27-31 | the names on the lines |
| Negotiation.CompressedFrameAccepted | src/connection.rs:140-149 | a codec built with an end's extension decodes a header with RSV1 if and only if that extension is enabled; for other headers the extension makes no difference |
| Session.SessionDelivers | src/connection.rs:140-332 | from the client's settings through the printed handshake to messages: all the client sends arrives; all the server sends arrives if and only if the ends agree or nothing is compressible; otherwise what comes before the first compressible call arrives, and then a reserved bit is an error |
| RequestSearch.AnyWindow | src/handshake/server.rs:86 | the search from the end finds a terminator exactly if there is one |
| RequestSearch.OnlyInTail | src/handshake/server.rs:96-99 | after the skip, the rest of a grown buffer has a terminator exactly if the whole has |
| RequestSearch.TerminatorMeans | src/handshake/server.rs:86 | the terminator is two line ends, each a carriage return and a line feed |
| RequestSearch.Server.constructor | src/handshake/server.rs:41-43 | a new server has its own buffer |
| RequestSearch.Server.ReadBlock | src/handshake/server.rs:80-99 | one round keeps all bytes and either ends the search rightly or makes progress |
| RequestSearch.Server.ReceiveRequest | src/handshake/server.rs:74-100 | for reads of any size the loop ends on a terminator exactly if the first 8192 bytes of the stream hold one, loses no byte, and keeps the buffer below 16384 bytes |

## Left out

- Asynchrony, wakers, TLS and sockets: reads, writes and the lock are explicit steps; cancelling a call in the middle is not modelled.
- I/O errors other than the end of the stream, a writer that breaks and a flush that fails; whether a flush succeeds is fixed for a connection.
- Connection.Sender.Close: does not model closing the socket or the error that may give; `Closing.CloseHandshake` and `Endpoint` cover both a writer that takes no more bytes after it and one that does.
- Connection.AddExtension: takes one extension where the code takes a list; the same holds for the next two.
- Connection.Receiver.DecodeWithExtensions: applies one extension, the only one the repository has.
- Connection.Sender.SendFrame: applies one extension, the only one the repository has.
- WriterLock.FrameAtomicity: covers writes that succeed; after a failed write a beginning of a frame stays on the wire and the lock is free.
- Accounting.SizeConservation: needs a maximum below the largest `usize`, since at that value the accumulated length saturates.
- Reassembly.Reassembles: is about connections without an extension; `Coupling.MessageDecoded` is its counterpart with the deflate extension.
- Grammar.UnexpectedExactly: is about frames within the size limit; an oversized frame ends a call in another way.
- Runs.DeliveredUnlessPong: starts with the extension's flag down; `Coupling.MessageFlagged` says what a message becomes with it up.
- WriterLock.NextKeeps: a side's frames are queued when they are asked for, so the model has more interleavings than two halves that write one frame at a time.
- Chunking.ChunkingIndependence: the bytes left over after an oversized message do depend on the split, which `Accounting.ResyncExactly` is about.
- Deflate.Deflate.Encode: starts from the compressor's flushed output; the two loops that drive zlib depend on its internals.
- The inflater and the compressor are parameters; `Session.SessionDelivers` trusts them only with inflating what was compressed, at the window of the sending end.
- More than one extension on a connection: the code allows a list, but has one extension; the header text is proved for any number of extensions.
- Overflow panics of debug builds and targets with a `usize` of 32 bits.
- `Receiver`'s scratch buffer for control payloads is a field of the class but not of the specification's state.
- The HTTP side of the handshake: parsing by httparse, keys and SHA-1, protocols, status codes, redirects, `expect_ascii_header`, `with_first_header`, and the client's response loop.
- Display and error conversions, logging, connection ids, getters and setters, and the size check of `ByteSlice125`, which is a precondition of the methods that send control frames.
