# ApexAegis management plane: verified core

A Dafny model of four parts of the management plane, with proofs over all inputs and all runs.

1. **Cloud-RADIUS and EAP-TLS** (`internal/radsec`): the packet codec, the EAP-Message and EAP-TLS layers, response signing,
   MPPE key encryption, the conversation table of the server, and the in-memory pipe between the server and its TLS engine.
   The formats follow sections 3 and 5 of RFC 2865, sections 3.1 and 3.2 of RFC 3579, section 4 of RFC 3748, sections 2.1.5
   and 3.1 of RFC 5216, section 2.4.2 of RFC 2548 and section 2.3 of RFC 6614.
2. **Policy insertion over the versioned store** (`internal/assistant/service.go`, `internal/policy/store.go`).
3. **The SQL statement splitter** (`internal/db/db.go`).
4. **The directory reconciler** (`internal/db/provisioning_store.go`).

`dafny verify dfyconfig.toml` checks all of it.

## How it is organised

| files | content |
|---|---|
| Wire, Radius, Signature, Eap, Mppe | octets, packets, authenticators, EAP packets and fragments, key encryption |
| Conversation, Server | one request as a function over the table of conversations; the objects that carry it out |
| MemConn | the two-thread pipe as interleaved steps, and its object |
| Runs, Delivery, AcceptSafety | whole runs of requests and reaper ticks: flights delivered, flights reassembled, who can be accepted |
| Receipts, Verdicts | what a receiver reads in every reply; which request gets which verdict, and how handshakes end |
| Interleaving, Dialogue | one conversation among the events of others; conversation and pipe together over whole handshakes |
| PolicyStore, Store | operations of the store as a relation with its invariants; the object |
| Text, Grant, GrantDecisions, Assistant, LateGrant, PolicyEdits | first-match evaluation, placement, decisions after a grant; the methods; grants that meet a lock; what every edit does |
| Lexer, Splitter, SplitRoundTrip, SplitPrint | grammar and scanner, segments and statements, what is dropped, printing |
| Provisioning, Admission, Convergence, Rows, Settling, Reconciler | tables and onboarding, who gets onboarded, what a run converges to, every row and membership after it, what repeated runs do; the object |

Code that updates state is a class or a method with a loop, proved against a function or relation on values; the theorems are
about those.

## Where a promise fails, and exactly when it holds

- The packet round trip needs values of at most 253 octets and a total below 65536 (`Radius.RoundTripIff`): the encoder
  truncates both length fields.
- Signer and verifier agree for every digest only with at most one Message-Authenticator (`Signature.SignatureAgreementIff`).
- `memConn` documents that a waiting read means a finished flight. That is so if and only if a push does not meet unsent output
  behind a standing wait mark (`MemConn.CompleteFlightIff`, `MemConn.PrematureFlight`).
- The access explanation can still report a deny after a grant, because placement looks at the granted scope only
  (`GrantDecisions.GrantWinsIff`, `GrantDecisions.GroupGrantCanLose`).
- A grant whose shift loop meets another author's lock that expires on the way is created among policies that were only partly
  shifted. It is the insertion if and only if no update was refused or the first match is the old version of the granted rule
  (`LateGrant.LateGrantOrderIff`, `LateGrant.LateGrantWhen`, `LateGrant.LateGrantInput`).
- The check of a Message-Authenticator reads sixteen octets whatever the attribute holds (`Signature.MacInBoundsIff`,
  `Signature.ShortMacOutOfBounds`).
- `stmtHasSQL` is documented to look for a line that is not a comment. The code knows line comments only, so a segment made of
  comments is kept exactly when it has a block comment (`SplitRoundTrip.CommentsDroppedIff`, `SplitRoundTrip.BlockCommentIsKept`).
- Printing the statements and splitting again fails for inputs that end inside an unclosed token (`SplitPrint.PrintRoundTripIff`).
- A reconciliation can skip a user that a second one onboards. It skips nobody if and only if nothing stands in anybody's way
  before it, which depends on the order of the snapshot (`Admission.NoSkipsIff`, `Settling.SkippedIsOnboardedLater`).
- The reconciler promises to onboard and offboard directory users only, and it does (`Convergence.OthersKept`). Memberships are
  not part of that promise: an imported group is replaced as a whole, so a user of another source keeps its membership of a group
  if and only if the group is not imported (`Convergence.ForeignMembers`, `Convergence.ManualMemberLeaves`).

## Model

| member | source | states |
|---|---|---|
| `Wire.PutGetU16` | internal/radsec/radius.go:128 | Writing back the 16-bit field that was read changes nothing, so no header octet is reinterpreted. |
| `Wire.GetPutU32` | internal/radsec/eap.go:133 | A 32-bit length field holds the value modulo 2^32, whatever the length. |
| `Radius.ParsePacket` | internal/radsec/radius.go:90-116 | The index loop with its three errors (short packet, bad Length, bad attribute length) computes the recursive specification on every buffer. |
| `Radius.EncodePacket` | internal/radsec/radius.go:120-138 | The buffer filled by offset is the header followed by the attributes in order, with the 16-bit and 8-bit length fields truncated as in the code. |
| `Radius.WriteAttribute` | internal/radsec/radius.go:131-136 | Writes one attribute at an offset and leaves everything before it as it was. |
| `Radius.ParseEncode` | internal/radsec/radius.go:90-138 | A representable packet is parsed back unchanged, whatever octets follow it in the buffer. |
| `Radius.EncodeParse` | internal/radsec/radius.go:90-138 | Encoding what was parsed gives exactly the octets the Length field covers, and only representable packets come out of a parse. |
| `Radius.RoundTripIff` | internal/radsec/radius.go:90-138 | The round trip holds for exactly the packets whose values have at most 253 octets and whose total is below 65536. |
| `Radius.OversizedValueIsLost` | internal/radsec/radius.go:120-138 | A concrete failing family: a value of 254 octets wraps its length octet and the packet no longer parses. |
| `Radius.ParseStops` | internal/radsec/radius.go:99-113 | Where an attribute list stops making sense: after any attributes, a lone octet is a short packet and a length octet that does not fit is a bad attribute. |
| `Radius.HeaderErrors` | internal/radsec/radius.go:90-98 | Fewer than twenty octets are short; the length is bad exactly when the field is below twenty or beyond the buffer. |
| `Radius.FindFirst` | internal/radsec/radius.go:147-154 | The search loop returns the first value of a type, or the empty value when there is none. |
| `Radius.CollectAll` | internal/radsec/radius.go:157-165 | The loop returns every value of a type in packet order. |
| `Radius.AllConcat` | internal/radsec/radius.go:157-165 | Collecting over two joined attribute lists is collecting over each: order and multiplicity are kept. |
| `Radius.FramesOfPackets` | internal/radsec/server.go:338-355 | Any concatenation of encoded packets is cut back into exactly those packets, each of which parses to the original. |
| `Radius.FramesConserve` | internal/radsec/server.go:338-355 | On any stream, well-formed or not, frames plus the unread rest are the stream, and every frame has the length it declares. |
| `Radius.CutFrame` | internal/radsec/server.go:338-355 | A connection cut inside a packet ends unexpectedly, except just after the header, where it looks like a clean end. |
| `Radius.IllegalFrame` | internal/radsec/server.go:343-346 | A Length field below twenty is an illegal frame whatever follows. |
| `Radius.Stream.ReadFull` | internal/radsec/server.go:338-355 | Reads exactly n octets or fails, telling an empty stream from a broken-off one, and consumes what was there. |
| `Radius.Stream.ReadRadius` | internal/radsec/server.go:338-355 | One packet is taken by its Length field; lengths outside 20..65535 and broken-off packets are errors. |
| `Radius.Stream.ReadAll` | internal/radsec/server.go:338-355 | Repeated reading returns all the frames of the stream up to its first read error. |
| `Signature.Response.constructor` | internal/radsec/radius.go:142-144 | A new response has no attributes and a zero authenticator. |
| `Signature.Response.Add` | internal/radsec/radius.go:142-144 | Appends one attribute after all others. |
| `Signature.Response.FillMac` | internal/radsec/radius.go:177-195 | Overwrites every Message-Authenticator in place and nothing else, and reports whether there was one. |
| `Signature.Response.Finalize` | internal/radsec/radius.go:172-207 | In-place signing turns the response into the signed packet of the specification and returns its encoding. |
| `Signature.VerifyMessageAuthenticator` | internal/radsec/radius.go:212-236 | On every packet and buffer: checks the first Message-Authenticator by clearing its octets in a copy, is true when there is none, and ends in the run-time error of a slice out of range exactly when the sixteen octets do not lie inside the buffer. |
| `Signature.MacInBoundsIff` | internal/radsec/radius.go:213-229 | For every buffer that parses, the check stays inside it if and only if the first Message-Authenticator and what follows it make up at least eighteen octets. |
| `Signature.FullMacInBounds` | internal/radsec/radius.go:213-229 | A first value of sixteen octets or more, as section 3.2 of RFC 3579 prescribes, keeps the check inside every buffer that parses. |
| `Signature.ShortMacOutOfBounds` | internal/radsec/radius.go:213-229 | An input at which it does not stay inside: a packet that ends in an empty Message-Authenticator parses. |
| `Signature.VerifiedMeans` | internal/radsec/radius.go:225-235 | What a passed check means: the first Message-Authenticator is the HMAC, under the secret of section 2.3 of RFC 6614, of the packet with that value zeroed and all that follows. |
| `Signature.VerifiedWithout` | internal/radsec/radius.go:222-224 | A packet without a Message-Authenticator passes. |
| `Signature.VerifiedRestored` | internal/radsec/radius.go:172-236 | The packet a receiver restores is the one the Response-Authenticator was computed over, the verifier stays inside it, and it hashes that packet with only the first Message-Authenticator cleared. |
| `Signature.SignatureAgreement` | internal/radsec/radius.go:172-236 | With at most one Message-Authenticator, for every digest, the restored response verifies and octets 4..20 are MD5 of the restored packet and the secret. |
| `Signature.SignatureAgreementIff` | internal/radsec/radius.go:172-236 | Signer and verifier agree for all digests if and only if there is at most one Message-Authenticator: the signer clears all of them, the verifier only the first. |
| `Eap.ParseEncodeEap` | internal/radsec/eap.go:45-74 | A typed packet whose length fits 16 bits is parsed back unchanged. |
| `Eap.EapRoundTripIff` | internal/radsec/eap.go:45-74 | Exactly which packets survive the codec: typed ones below 65536 octets, untyped ones only without type and data. |
| `Eap.EapOkIff` | internal/radsec/eap.go:45-62 | Exactly which octets are an EAP packet. |
| `Eap.EapTail` | internal/radsec/eap.go:49-60 | Octets beyond the length of a packet do not matter. |
| `Eap.EncodeParseEap` | internal/radsec/eap.go:45-74 | Encoding a parsed Request or Response gives back the octets its length field covers. |
| `Eap.ParseResult` | internal/radsec/eap.go:77-83 | A bare Success or Failure is read back with its code and identifier. |
| `Eap.ReadFragment` | internal/radsec/eap.go:88-140 | A fragment is read back as its chunk, with M exactly when more follows, never S, and L with the total length exactly on the first. |
| `Eap.FragmentOctets` | internal/radsec/eap.go:106-147 | Fragments and acknowledgements octet by octet: flags 0x80 and 0x40, the total length on the first, at most a thousand octets of data. |
| `Eap.AllChunks` | internal/radsec/eap.go:161-170 | The EAP-Message attributes of a packet hold it in order, and the cutting adds no other attribute. |
| `Eap.CollectAdded` | internal/radsec/eap.go:151-170 | Adding an EAP packet among any other attributes and collecting it gives the packet back. |
| `Eap.AddEapMessage` | internal/radsec/eap.go:161-170 | The loop appends the packet as attributes of 1 to 253 octets after what the response holds. |
| `Eap.CollectEapMessage` | internal/radsec/eap.go:151-157 | The loop concatenates all EAP-Message values in packet order. |
| `Mppe.PaddedLengthIsLeast` | internal/radsec/mppe.go:72-110 | The padded length is the least multiple of 16 that holds the length octet and the key. |
| `Mppe.DecryptEncrypt` | internal/radsec/mppe.go:72-110 | Decryption as in section 2.4.2 of RFC 2548 inverts the chained encryption, for every digest and any number of blocks. |
| `Mppe.CipherBlock` | internal/radsec/mppe.go:88-108 | Every cipher block is its plain block masked with MD5 of the secret and, first, the request authenticator and salt, later the cipher block before. |
| `Mppe.XorUnit` | internal/radsec/mppe.go:103-105 | The masking operation is neutral on zero and cancels itself. |
| `Mppe.SaltKept` | internal/radsec/mppe.go:72-78 | Marking sets the top bit of a salt and loses none of the other fifteen: two salts stay different unless they differed there only. |
| `Mppe.KeyRecoveredIff` | internal/radsec/mppe.go:72-110 | The decrypted text is length octet, key and zeros; a receiver recovers the key if and only if it has at most 255 octets. |
| `Mppe.EncryptBlocks` | internal/radsec/mppe.go:88-108 | The block loop that carries the previous cipher block computes the chained encryption. |
| `Mppe.Pad` | internal/radsec/mppe.go:80-86 | The padded buffer is length octet, key and zeros up to a block boundary. |
| `Mppe.SaltEncrypt` | internal/radsec/mppe.go:72-110 | Fails exactly when randomness fails; otherwise returns the salt with its top bit set and the key encrypted under it. |
| `Mppe.VendorLengthIff` | internal/radsec/mppe.go:52-68 | The vendor length octet describes the data if and only if the cipher has at most 251 octets. |
| `Mppe.VendorOctets` | internal/radsec/mppe.go:59-67 | The vendor attribute octet by octet, with vendor 311 and types 16 and 17. |
| `Mppe.MppeVendorValue` | internal/radsec/mppe.go:52-68 | Assembles vendor, type, length, salt and cipher, or passes on the failure of randomness. |
| `Mppe.MppeRecovered` | internal/radsec/mppe.go:52-110 | A receiver that shares the secret reads type and key out of a 32-octet key attribute. |
| `Mppe.KeysReachReceiver` | internal/radsec/mppe.go:30-48 | Both halves of the session key arrive, the second under Send-Key and the first under Recv-Key. |
| `Mppe.AddMppeKeys` | internal/radsec/mppe.go:30-48 | Appends Send-Key then Recv-Key, or neither: nothing is added for a short session key or when either salt could not be drawn. |
| `Server.Session.constructor` | internal/radsec/server.go:418-444 | A new session has a new pipe, nothing to send, nothing reassembled, and no finished handshake. |
| `Server.RadsecServer.RejectReply` | internal/radsec/server.go:596-606 | The reply is the signed Access-Reject of the specification. |
| `Server.RadsecServer.ChallengeReply` | internal/radsec/server.go:588-594 | The reply is the signed Access-Challenge that ChallengeReceived shows a peer reads back exactly. |
| `Server.RadsecServer.RefusalReply` | internal/radsec/server.go:540-549 | A refused decision is answered with EAP-Failure under the new identifier and with the message of the decision when it has one. |
| `Server.RadsecServer.AcceptReply` | internal/radsec/server.go:552-584 | The reply is the signed Access-Accept that AcceptReceived shows a receiver reads back. |
| `Server.RadsecServer.AddGrant` | internal/radsec/server.go:555-566 | The decided user name, or the common name of the certificate, then VLAN, filter and session timeout, each only when the decision has it. |
| `Server.RadsecServer.Destroy` | internal/radsec/server.go:612-619 | The pipe of the session is closed and its token leaves the table, and nothing else changes. |
| `Server.RadsecServer.RejectAndDestroy` | internal/radsec/server.go:596-606 | Rejects and forgets the session. |
| `Server.RadsecServer.FinishSession` | internal/radsec/server.go:526-585 | A finished handshake ends the session whatever the decision, with Accept only for a present certificate the policy engine accepts. |
| `Server.RadsecServer.SendFragment` | internal/radsec/server.go:513-522 | Sends the fragment at the current offset and advances it, or clears the outbound message with its last fragment. |
| `Server.RadsecServer.FeedEngine` | internal/radsec/server.go:475-510 | The reassembled flight is pushed once into the pipe of the session, the answer is what the collection on that pipe returns after any moves of the engine thread, and the done channel is looked at afterwards: a failed handshake rejects, an output is fragmented, a finished handshake ends the session. |
| `Server.RadsecServer.AdvanceSession` | internal/radsec/server.go:448-510 | One request of a conversation refines the specification step (acknowledgement, fragment to gather, complete flight, malformed data) with the report read off its own pipe. |
| `Server.RadsecServer.StartConversation` | internal/radsec/server.go:418-444 | Opens one session with a new pipe under the new token, answers with EAP-TLS Start, and leaves every other session object in place. |
| `Server.RadsecServer.ContinueConversation` | internal/radsec/server.go:400-415 | A known State advances its own session only; an unknown State is rejected and changes nothing. |
| `Server.RadsecServer.HandleAccessRequest` | internal/radsec/server.go:382-415 | The heap of sessions after one request, the reply, and what the engine was fed are those of the specification step over the abstract table; the report of the engine is what the pipe of that conversation yields, and no other pipe moves. |
| `Server.RadsecServer.ReapStale` | internal/radsec/server.go:622-643 | One tick closes and drops exactly the conversations older than two minutes. |
| `Runs.AfterSplit` | internal/radsec/server.go:382-415 | A run of requests and reaper ticks can be cut anywhere: the rest runs from the table reached. |
| `Runs.OutcomeSplit` | internal/radsec/server.go:382-415 | What an event of a joined run does is what it does in its own part, from the table reached there. |
| `Delivery.ChallengeReceived` | internal/radsec/server.go:588-594 | A peer that parses, collects, parses EAP and strips the flags reads token, identifier, flags and data exactly, and both authenticators check out. |
| `Delivery.PiecesJoin` | internal/radsec/eap.go:115-140 | The pieces of a flight, appended, are the flight. |
| `Delivery.FragmentReceived` | internal/radsec/server.go:513-522 | At any offset the peer receives the expected piece with the expected flags, and the session advances or clears. |
| `Delivery.SentState` | internal/radsec/server.go:506-522 | The whole table after k requests of a transfer: only this conversation changed, by k pieces. |
| `Delivery.SentReply` | internal/radsec/server.go:506-522 | The k-th request is answered with the k-th piece, authentically. |
| `Delivery.FlightDelivered` | internal/radsec/server.go:506-522 | Every non-empty flight reaches the peer in ceil(n/1000) authentic challenges, L and the total on the first only, M on all but the last, identifiers counting up; the appended data is the flight and nothing stays pending. |
| `Delivery.GatheredState` | internal/radsec/server.go:467-473 | The whole table after k fragments of a peer flight: only this conversation changed, by the data gathered. |
| `Delivery.Reassembled` | internal/radsec/server.go:448-510 | However a peer flight is cut, L flags present or not, each fragment but the last is acknowledged and feeds nothing, and the last feeds the whole flight once; a last fragment without data feeds nothing. |
| `Delivery.FlightExchange` | internal/radsec/server.go:448-522 | A whole exchange: the engine is fed exactly the peer flight, once, the peer assembles exactly the answer of the engine, and the conversation is ready for the next flight. |
| `Interleaving.OwnStep` | internal/radsec/server.go:382-510 | What a request of a conversation does, replies and feeds depends on the entry of that conversation only. |
| `Interleaving.ForeignStep` | internal/radsec/server.go:382-643 | A request of another conversation, or a reaper tick within two minutes of the opening, leaves the entry alone. |
| `Interleaving.OwnRun` | internal/radsec/server.go:382-643 | In any run, among requests of other conversations and such ticks, entry, replies and fed flights of a conversation are those of its own requests run alone. |
| `Interleaving.DeliveredAmong` | internal/radsec/server.go:506-522 | FlightDelivered wherever the requests of the conversation stand in a run with other events. |
| `Interleaving.ReassembledAmong` | internal/radsec/server.go:448-510 | Whatever happens in between, the engine of the conversation is fed the whole peer flight once, or nothing when the last fragment carries no data. |
| `Interleaving.ExchangeAmong` | internal/radsec/server.go:448-522 | A whole exchange among the events of other conversations. |
| `Dialogue.ExchangeComplete` | internal/radsec/server.go:475-522 | Server and pipe together: the peer assembles exactly what the engine wrote in answer to the flight it was fed, and unless the handshake finished the engine consumed all of it and the pipe is empty again. |
| `Dialogue.ReportIsTrue` | internal/radsec/server.go:478-494 | What the server finds on the pipe: the output is exactly what the engine wrote in answer, done and failed are the end of its handshake. |
| `Dialogue.TalkComplete` | internal/radsec/server.go:448-522 | Any number of exchanges, the finishing one included, among other conversations: one answer per flight, together exactly what the engine wrote; the engine was fed exactly the peer flights in order. |
| `Dialogue.HandshakeHeard` | internal/radsec/server.go:418-522 | From a new pipe on, the peer has received everything the engine ever wrote, and everything it sent was consumed or is still in the pipe. |
| `AcceptSafety.StepOrigin` | internal/radsec/server.go:382-510 | Every session of the next table was just opened or continues one of the old, and a finished-handshake mark comes from a handshake that finished without error. |
| `AcceptSafety.StepAccept` | internal/radsec/server.go:526-585 | An Access-Accept removes its token from the table and implies a finished handshake and an accepting policy engine. |
| `AcceptSafety.StepUnknown` | internal/radsec/server.go:401-406 | A request for a token that is not in the table is rejected, changes nothing and feeds nothing. |
| `AcceptSafety.RunJustified` | internal/radsec/server.go:382-643 | In every run every session was opened, and marked finished, by events of that run. |
| `AcceptSafety.AcceptSafe` | internal/radsec/server.go:382-585 | In every run an Access-Accept has an earlier opening request for that token, a handshake of that token that finished without error, a certificate, and a decision made on the identifiers of the opening request. |
| `AcceptSafety.StaysOut` | internal/radsec/server.go:612-643 | A token that left the table and is not handed out again never returns. |
| `AcceptSafety.OneAccept` | internal/radsec/server.go:382-643 | With fresh tokens, after an Access-Accept every later request with that State is rejected and changes nothing: one Accept per token. |
| `AcceptSafety.RunSendState` | internal/radsec/server.go:506-522 | Between requests of any run either nothing is pending or 0 < outOffset < len(outFrags). |
| `Receipts.DecimalReads` | internal/radsec/server.go:646-651 | The VLAN text is a numeral without a leading zero that reads back, left to right, as the number. |
| `Receipts.AcceptSigned` | internal/radsec/server.go:552-584 | Signing an Access-Accept fills its one Message-Authenticator and leaves every other attribute as decided. |
| `Receipts.AcceptReceived` | internal/radsec/server.go:552-584 | An Access-Accept parses, is authentic, carries EAP-Success, and a receiver reads in it exactly what was decided: user name, VLAN with its tunnel attributes, filter, timeout modulo 2^32, each absent when the decision lacks it, and both halves of the session key or none. |
| `Receipts.RefusalReceived` | internal/radsec/server.go:540-549 | A refusal parses, is authentic, carries EAP-Failure and the message of the decision if it has one, and nothing that grants anything. |
| `Receipts.RejectReceived` | internal/radsec/server.go:596-601 | A plain reject parses, is authentic, and says only that access is denied. |
| `Receipts.ChallengeRead` | internal/radsec/server.go:588-594 | A challenge holds one Message-Authenticator first, the EAP packet in order, and the State last, and nothing else. |
| `Receipts.StartReceived` | internal/radsec/eap.go:106-109 | The first challenge of a conversation is read back with the S flag alone. |
| `Verdicts.VerdictIff` | internal/radsec/server.go:382-585 | The verdict on every request of a known conversation: accepted if and only if its handshake ends (final acknowledgement, or last flight without an answer) and the policy engine accepts, challenged if and only if the conversation goes on, else rejected; the conversation survives exactly a challenge or a request that is not EAP-TLS; no other entry changes. |
| `Verdicts.OpeningVerdict` | internal/radsec/server.go:391-444 | A request without a State opens a conversation exactly when it carries an EAP identity: one entry with its fields, and a start challenge the peer reads; any other is rejected and changes nothing. |
| `Verdicts.EndIsReceived` | internal/radsec/server.go:526-585 | What a receiver reads at the end of a handshake: the whole grant, the refusal with its message, or a plain reject without a certificate. |
| `Verdicts.FinalAck` | internal/radsec/server.go:455-463 | After the delivery of a last flight, the acknowledgement of its last piece is answered with Access-Accept if and only if the policy engine accepts, else with a reject, and the conversation is over. |
| `Verdicts.FinalAckAmong` | internal/radsec/server.go:455-463 | The same among the events of other conversations and timely reaper ticks. |
| `Verdicts.TickKeeps` | internal/radsec/server.go:632-641 | A reaper tick keeps exactly the conversations of the last two minutes, as they are. |
| `Verdicts.StaleIsRejected` | internal/radsec/server.go:622-643 | In every run with fresh tokens, after a tick that finds a conversation older than two minutes every request with its State is rejected and changes nothing. |
| `MemConn.RunConserves` | internal/radsec/conn.go:40-110 | In every interleaving pushed octets are the consumed ones followed by the inbound buffer, and written octets are the collected flights followed by the outbound buffer. |
| `MemConn.EngineKeeps` | internal/radsec/conn.go:40-110 | While only the engine moves, unread input behind a standing wait mark implies that nothing was written since. |
| `MemConn.CompleteFlightIff` | internal/radsec/conn.go:71-110 | On every open pipe, after a push and whatever the engine does, the readWaiting branch returns only with all input consumed, if and only if the push did not find unsent output behind a standing wait mark. |
| `MemConn.PrematureFlight` | internal/radsec/conn.go:71-110 | The failing family: a push onto unsent output is answered with that old output while the new input is unread. |
| `MemConn.NothingWrittenUnasked` | internal/radsec/conn.go:40-110 | After a flight was collected as finished the engine writes nothing before the next push. |
| `MemConn.RoundComplete` | internal/radsec/conn.go:71-110 | One round: everything pushed was consumed and the collected flight is exactly what the engine wrote in that round. |
| `MemConn.ConversationComplete` | internal/radsec/conn.go:71-110 | Any number of rounds: the engine consumed the peer flights in order, and the collected flights, one per round, are all it wrote. |
| `MemConn.NewConversationComplete` | internal/radsec/conn.go:40-110 | The same for a whole conversation from a new pipe. |
| `MemConn.FinishedIsSilent` | internal/radsec/conn.go:81-92 | Once the handshake is done the engine neither reads nor writes again in any run. |
| `MemConn.LastRoundComplete` | internal/radsec/conn.go:87-92 | The done branch: the flight returned is everything the engine wrote since the last collection, and nothing will ever follow it. |
| `MemConn.HandshakeComplete` | internal/radsec/conn.go:40-110 | A whole handshake including the round that finishes it: one flight per round, together all the engine ever writes, and all input consumed but for what it left when it finished. |
| `MemConn.AnswerComplete` | internal/radsec/conn.go:71-110 | Through either branch, and whatever the engine thread does before and after, the collected flight is exactly what the engine wrote in answer to the pushed one. |
| `MemConn.CloseEndsWait` | internal/radsec/conn.go:40-68 | Closing a pipe ends the wait of the engine; a closed pipe makes it wait no more and takes no output. |
| `MemConn.Conn.ReadStep` | internal/radsec/conn.go:40-56 | Read from its lock to its return or wait: data first, then the error of a closed pipe, then the deadline, else a wait with the mark set. |
| `MemConn.Conn.WriteAll` | internal/radsec/conn.go:59-68 | Appends everything, or fails on a closed pipe. |
| `MemConn.Conn.FinishHandshake` | internal/radsec/server.go:422-428 | The engine thread signals that it is done, and changes nothing else. |
| `MemConn.Conn.EngineSteps` | internal/radsec/conn.go:40-68 | Any list of moves: those the engine thread can make at their point take effect, in order. |
| `MemConn.Conn.Exchange` | internal/radsec/server.go:478-483 | Push, engine moves, collection, engine moves: the output and the pipe are those of the specification. |
| `MemConn.Conn.PushInbound` | internal/radsec/conn.go:71-76 | Appends to the inbound buffer and touches neither the wait mark nor the outbound buffer. |
| `MemConn.Conn.CollectStep` | internal/radsec/conn.go:81-110 | One round of the collecting loop returns the outbound buffer in exactly the cases of the code, and else waits. |
| `MemConn.Conn.CloseConn` | internal/radsec/conn.go:119-125 | Closes the pipe and changes nothing else. |
| `MemConn.Conn.SetReadDeadline` | internal/radsec/conn.go:127-133 | Sets the deadline and changes nothing else. |
| `PolicyStore.ListingUnique` | internal/policy/store.go:129-141 | With distinct sequences a policy set has one listing only, so the order of map iteration cannot show. |
| `PolicyStore.SnapshotOfListing` | internal/policy/store.go:439-445 | The map built from a listing is the policy set it lists. |
| `PolicyStore.NextKeepsHistory` | internal/policy/store.go:215-322 | Every operation keeps the history invariant and moves the version by at most one; without a new version neither policies nor history changed. |
| `PolicyStore.RunKeepsHistory` | internal/policy/store.go:395-437 | In every state of every run the history holds the last min(version, 10) versions, numbered without a gap up to the current one, and the newest snapshot lists the current policies. |
| `PolicyStore.VersionsNeverChange` | internal/policy/store.go:395-437 | Across any run a version number always names the same record. |
| `PolicyStore.VersionsOnlyGrow` | internal/policy/store.go:395-437 | The version never falls and grows by at most one per call. |
| `PolicyStore.DiffComplete` | internal/policy/store.go:325-360 | Applying just the reported changes turns the first policy set into the second, the report is empty exactly for equal sets, and no smaller report would do. |
| `PolicyStore.DiffKinds` | internal/policy/store.go:345-358 | Added, removed and modified mean just that, and a diff the other way reports the opposite. |
| `PolicyStore.DiffReport` | internal/policy/store.go:325-360 | A diff of two retained versions runs from the first to the second; there is none if either is gone. |
| `PolicyStore.NewestSnapshot` | internal/policy/store.go:395-437 | The current version is retained and stands for the current policies. |
| `PolicyStore.StillFound` | internal/policy/store.go:395-437 | A version retained across a call is found unaltered after it. |
| `PolicyStore.RevertRestores` | internal/policy/store.go:299-322 | A revert restores the policies of the target as a map and commits one version, whoever holds the lock; a diff against the target, while retained, is empty; an unknown target changes nothing. |
| `PolicyStore.HeldStep` | internal/policy/store.go:158-212 | One call before the expiry that does not release the lock leaves it held, and an edit by another author changes nothing. |
| `PolicyStore.LockExcludes` | internal/policy/store.go:158-271 | In every run with a non-decreasing clock, from taking the lock to its expiry or release, edits by others change nothing and every version an edit commits is the holder's. |
| `Store.InsertListing` | internal/policy/store.go:129-141 | Inserting by sequence into a listing gives a listing of the larger set. |
| `Store.SortedPolicies` | internal/policy/store.go:129-141 | Taking the policies from the map in any order yields a listing: sorted, complete, without duplicates. |
| `Store.RestoreMap` | internal/policy/store.go:313-318 | The loop over a snapshot rebuilds the map it stands for. |
| `Store.MaxSequence` | internal/policy/store.go:223-231 | The loop finds the largest sequence, at least zero. |
| `Store.DiffMaps` | internal/policy/store.go:325-360 | The two passes over the snapshots compute the difference that DiffComplete shows complete and minimal. |
| `Store.SearchVersion` | internal/policy/store.go:303-309 | The search finds the version of a number, or none. |
| `Store.PolicyStoreObject.constructor` | internal/policy/store.go:105-114 | A new store is empty, at version zero and unlocked. |
| `Store.PolicyStoreObject.List` | internal/policy/store.go:129-141 | Returns a listing of the stored policies. |
| `Store.PolicyStoreObject.CheckLock` | internal/policy/store.go:204-212 | Names the holder exactly when another author holds an unexpired lock. |
| `Store.PolicyStoreObject.Commit` | internal/policy/store.go:395-437 | Records the current policies as the next version and drops the oldest beyond ten. |
| `Store.PolicyStoreObject.CreatePolicy` | internal/policy/store.go:215-236 | Refused exactly by the lock; otherwise stores the policy, after all others when it came without a sequence, in one new version. |
| `Store.PolicyStoreObject.UpdatePolicy` | internal/policy/store.go:239-253 | Fails exactly when locked or unknown, and then changes nothing; otherwise one new version. |
| `Store.PolicyStoreObject.DeletePolicy` | internal/policy/store.go:256-271 | Fails exactly when locked or unknown, and then changes nothing; otherwise exactly that policy is gone, in one new version. |
| `Store.PolicyStoreObject.RevertTo` | internal/policy/store.go:299-322 | Fails exactly for a version that is not retained; the lock is not consulted. |
| `Store.PolicyStoreObject.Diff` | internal/policy/store.go:325-360 | The difference of two retained versions, or nothing when one is not retained. |
| `Store.PolicyStoreObject.AcquireLock` | internal/policy/store.go:158-173 | Succeeds exactly when nobody else holds an unexpired lock, and then the caller holds it for thirty minutes. |
| `Store.PolicyStoreObject.ReleaseLock` | internal/policy/store.go:176-189 | Succeeds exactly when no lock is left; only the holder or a forced call releases. |
| `Store.PolicyStoreObject.CurrentLock` | internal/policy/store.go:192-201 | Reports the lock and clears it when it has expired. |
| `Grant.FirstMatch` | internal/assistant/service.go:128-153 | The index of the first matching policy: it matches and none before it does, or the length of the list when none matches. |
| `Grant.SlotBetween` | internal/assistant/service.go:480-506 | The chosen sequence is positive, above everything before the insertion point and below everything after it once the shift is applied. |
| `Grant.SlotExact` | internal/assistant/service.go:480-506 | Where the sequence is put: ten past the end, halfway into the gap, or in the place of the match with it and its tail moved by ten. |
| `Grant.InsertedListing` | internal/assistant/service.go:480-506 | For any insertion point the stored policies after the shifts and the create list as the old list with the rule inserted there. |
| `Grant.GrantIsInsertion` | internal/assistant/service.go:218-285 | A grant is exactly an insertion: over positive, distinct sequences the listing afterwards is the old one with the rule above its first match, or at the end; others change at most in sequence, and sequences stay positive and distinct. |
| `GrantDecisions.OthersKeepDecision` | internal/assistant/service.go:480-506 | Every query that neither the rule nor the policy it replaces matches keeps its first-match decision. |
| `GrantDecisions.GrantWinsIff` | internal/assistant/service.go:480-506 | A query the rule matches resolves to it if and only if nothing above the insertion point, other than what it replaces, matches that query. |
| `GrantDecisions.OwnScopeIff` | internal/assistant/service.go:218-274 | When the rule matches the scope it was granted for: a non-blank account name, or a first group that is not empty. |
| `GrantDecisions.GrantWinsInScope` | internal/assistant/service.go:218-235 | After the grant every query inside the granted scope that the rule matches is decided by an enabled policy with the action allow, under the granted identifier, for the granted host and user or groups. |
| `GrantDecisions.MemberIsInScope` | internal/assistant/service.go:163-164 | A member of any single granted group, or the granted user, asking for the host is such a query. |
| `GrantDecisions.MatchesIff` | internal/assistant/service.go:128-150 | A policy matches if and only if it is enabled, names one of the groups or handles, and one of the addresses. |
| `GrantDecisions.DisabledNeverDecide` | internal/assistant/service.go:132-135 | Disabled policies never matter to a decision. |
| `GrantDecisions.BlockingIff` | internal/assistant/service.go:484-488 | The deny a grant reports as overridden is exactly the one that decided its scope before. |
| `GrantDecisions.HandlesAsked` | internal/assistant/service.go:438-446 | The three handles of a user, folded and not blank, are what is asked about; a scoped query differs from the full one in its scope only. |
| `GrantDecisions.GroupGrantCanLose` | internal/assistant/service.go:218-226 | Placement looks at the granted scope only: a deny on the user still decides after a grant to the group of that user. |
| `Assistant.MatchGroup` | internal/assistant/service.go:427-434 | The search returns the first group of the policy that is among the given ones. |
| `Assistant.MatchUser` | internal/assistant/service.go:448-455 | The search finds a user of the policy among the given handles, case and outer white space ignored. |
| `Assistant.MatchDest` | internal/assistant/service.go:457-471 | One of the destination addresses is among the given ones; a policy whose destination is absent or unreadable never matches. |
| `Assistant.MatchPolicy` | internal/assistant/service.go:128-150 | Enabled, and matching by user or group, and by destination. |
| `Assistant.Explain` | internal/assistant/service.go:128-153 | The evaluation loop returns the decision of the first matching policy. |
| `Assistant.ShiftTail` | internal/assistant/service.go:489-505 | The loop copies the tail with every sequence ten higher. |
| `Assistant.PlaceAboveFirstMatch` | internal/assistant/service.go:480-506 | The scan computes slot, shifts and overridden deny that GrantIsInsertion shows to be an insertion. |
| `Assistant.StoreShifts` | internal/assistant/service.go:275-282 | Under a clock that advances between the calls: the updates before a foreign lock expires are refused, all later ones are stored, one version each. |
| `Assistant.ApplyGrant` | internal/assistant/service.go:275-285 | Refused as a whole exactly when the lock still stands at the create; otherwise the create and every update that was not refused, one version each. |
| `Assistant.GrantAccess` | internal/assistant/service.go:166-295 | Previews change nothing; a grant without groups, or against a lock that stands to the end, changes nothing; an applied grant stores an enabled allow of the host for the granted user or groups, and with no refused update turns the policies into those of the insertion, in exactly k + 1 versions for k shifts. |
| `Assistant.EditKeepsSequences` | internal/policy/store.go:224-236 | A grant, an auto-sequenced create or a delete keeps sequences positive and pairwise distinct. |
| `Assistant.RunKeepsSequences` | internal/assistant/service.go:275-285 | The same over every run of such edits. |
| `Assistant.GrantTakesEffect` | internal/assistant/service.go:166-295 | From store to decisions: the listing is the insertion, every query inside the granted scope that the rule matches is decided by an enabled allow of the host, and every unmatched query keeps its decision. |
| `LateGrant.LateGrantIff` | internal/assistant/service.go:275-285 | For every rule, new or granted again: a grant that gets through leaves the sequences positive and distinct if and only if no update of its shift loop was refused or the first match is the old version of the rule itself. |
| `LateGrant.LateGrantWhen` | internal/assistant/service.go:275-285 | The same condition told before the first call: nothing to shift, no foreign lock at the first update, or the first match is the old version of the rule. |
| `LateGrant.LateGrantOrderIff` | internal/assistant/service.go:275-285 | Under exactly that condition every listing afterwards has the order of the insertion; otherwise the store may list the first match above the rule. |
| `LateGrant.LateGrantInput` | internal/assistant/service.go:275-285 | An input: one dense deny, a lock until 5, an update at 5 and a create at 6. The update is refused, the grant is applied, and the deny may still decide. |
| `PolicyEdits.EditTakesEffect` | internal/policy/store.go:204-271 | An edit commits one version if and only if no foreign lock stands in its way and it finds what it names; it touches no other policy, and a refused one changes nothing. |
| `PolicyEdits.EditedPolicy` | internal/policy/store.go:215-271 | A delete deletes, an update overwrites, a create stores the policy, ten behind the largest sequence if it has none. |
| `PolicyEdits.EditRecorded` | internal/policy/store.go:395-437 | The version an edit records: its number, author, kind of change, policy and new listing, behind the last nine or fewer. |
| `PolicyEdits.LockTakenIff` | internal/policy/store.go:158-173 | The lock is taken if and only if nobody else holds it or it has run out, and then stands for thirty minutes. |
| `PolicyEdits.LockReleasedIff` | internal/policy/store.go:176-201 | Released by the holder or by force only; looking at a lock clears it once it has run out. |
| `PolicyEdits.LapsedLock` | internal/policy/store.go:204-212 | A lock that has run out holds up nobody. |
| `PolicyEdits.DeleteTakesEffect` | internal/policy/store.go:256-271 | After a delete no listing holds the policy, the others keep their order, every query it did not match keeps its decision, and one it decided falls to the next match. |
| `PolicyEdits.StoreEdit` | internal/policy/store.go:215-271 | The edits of the sequence invariant are those the store carries out. |
| `PolicyEdits.StoreKeepsSequences` | internal/policy/store.go:215-271 | In every run of the store that leaves sequences to it they are positive and pairwise distinct. |
| `Lexer.IndexOf` | internal/db/db.go:224-224 | The first occurrence of a pattern, or none anywhere. |
| `Text.TrimIsCore` | internal/db/db.go:301-301 | Trimming removes exactly the outer white space. |
| `Text.FoldIff` | internal/assistant/service.go:438-455 | Names fold to the same exactly when they differ in letter case and outer white space only. |
| `Text.SpaceCodes` | internal/db/db.go:301-301 | White space is the six ASCII characters. |
| `Lexer.NextFits` | internal/db/db.go:219-312 | The token the scanner takes is a non-empty prefix of the input that the grammar allows there. |
| `Lexer.FitsIsNext` | internal/db/db.go:219-312 | The grammar leaves no choice: a token that fits in front of a text is the one the scanner takes. |
| `Lexer.TagIff` | internal/db/db.go:272-281 | A text starts with a dollar tag, letters, digits and underscores between two dollars, exactly when the scanner finds that one. |
| `Lexer.LexUnique` | internal/db/db.go:214-319 | Every input has exactly one reading as comments, strings, dollar-quoted bodies, semicolons and single characters: the one of the scanner. |
| `Lexer.LexText` | internal/db/db.go:214-319 | The tokens of a reading, put together, are the input. |
| `Splitter.SegStep` | internal/db/db.go:299-312 | A ground-mode semicolon ends a segment; any other token, with all semicolons inside it, extends the current one. |
| `Splitter.JoinSegments` | internal/db/db.go:214-319 | The untrimmed segments joined by the dropped semicolons are the input, character by character. |
| `Splitter.StmtHasSql` | internal/db/db.go:322-330 | The line loop finds whether some line is neither blank nor a line comment. |
| `Splitter.ScanQuoted` | internal/db/db.go:249-268 | The inner loop stops after the closing quote, treating doubled quotes as content, or at the end. |
| `Splitter.ScanTag` | internal/db/db.go:272-278 | The loop stops at the first character that cannot belong to a tag. |
| `Splitter.ScanLine` | internal/db/db.go:223-233 | Consumes exactly the line comment, with its line break when there is one. |
| `Splitter.ScanBlock` | internal/db/db.go:236-246 | Consumes exactly the block comment, to the end when it is not closed. |
| `Splitter.ScanDollar` | internal/db/db.go:271-297 | Consumes exactly a dollar-quoted body when a tag opens here, and a single dollar otherwise. |
| `Splitter.ScanBody` | internal/db/db.go:279-293 | Consumes exactly the body up to the first occurrence of its tag, to the end when there is none. |
| `Splitter.ScanToken` | internal/db/db.go:219-312 | Every mode consumes exactly the token of the declarative reading, and at least one character. |
| `Splitter.KeepStatement` | internal/db/db.go:301-304 | The filter on a trimmed segment. |
| `Splitter.SplitStatements` | internal/db/db.go:214-319 | The imperative scanner terminates on every input and returns the trimmed, kept segments of the unique reading. |
| `SplitRoundTrip.LexFront` | internal/db/db.go:214-319 | Cutting the input after a token boundary does not change how what is before it reads. |
| `SplitRoundTrip.TrimShape` | internal/db/db.go:301-301 | Trimming changes neither whether a text has a cut, nor whether it is bare, nor whether it ends inside an unclosed token. |
| `SplitRoundTrip.SqlIff` | internal/db/db.go:322-330 | The line-by-line test agrees with the lexical one: some token is neither white space nor a line comment. |
| `SplitRoundTrip.DroppedIff` | internal/db/db.go:299-330 | A segment is dropped if and only if it reads as white space and line comments only. |
| `SplitRoundTrip.CommentsDroppedIff` | internal/db/db.go:321-330 | A segment of white space and comments is dropped if and only if it has no block comment; that is exactly where the code departs from its comment. |
| `SplitRoundTrip.BlockCommentIsKept` | internal/db/db.go:321-330 | An input at which it departs: the shortest block comment is kept as a statement. |
| `SplitPrint.SegmentsGood` | internal/db/db.go:214-319 | Each segment, read alone, reads as it did in place, has no cut, and only the last can end unclosed. |
| `SplitPrint.StatementsExact` | internal/db/db.go:299-319 | Each segment yields nothing if it holds only white space and line comments, else one statement, itself without outer white space, in the order of the input. |
| `SplitPrint.Resplit` | internal/db/db.go:214-330 | Splitting any statement of the output again yields just that statement. |
| `SplitPrint.ClosedPrint` | internal/db/db.go:299-319 | A closed text followed by a line break and a semicolon is cut off as one segment, whatever follows. |
| `SplitPrint.OpenPrint` | internal/db/db.go:236-293 | An unclosed text swallows what is printed after it. |
| `SplitPrint.PrintRoundTripIff` | internal/db/db.go:214-330 | Printing all statements and splitting again gives the same list if and only if the input does not end inside an unclosed block comment, string or dollar-quoted body. |
| `SplitPrint.UnclosedQuoteIsLost` | internal/db/db.go:249-268 | A single quote is an input for which the print round trip fails. |
| `Provisioning.MineUnique` | internal/db/provisioning_store.go:155-158 | Under the unique index on provider and subject the lookup of a directory user finds at most one row. |
| `Provisioning.PickedAddress` | internal/db/provisioning_store.go:302-313 | The picked address is in lower case, and is a mail address exactly when the mail attribute or the principal name is one, or account name and domain make one. |
| `Rows.PickedFrom` | internal/db/provisioning_store.go:302-313 | The address is the mail attribute if that holds an at sign, whatever the rest; else the principal name if that does; else account and domain; up to letter case and outer white space. |
| `Rows.AcceptedIff` | internal/db/provisioning_store.go:148-153 | A user is without an address exactly when no source has one. |
| `Rows.NamedFrom` | internal/db/provisioning_store.go:149-149 | The name is the first of display name, account name, principal name and SID that is not blank. |
| `Provisioning.UpsertEffect` | internal/db/provisioning_store.go:148-190 | An onboarding that is not skipped keeps all unique indexes, writes one row of the user's own SID, leaves it active with the picked address and name, and touches no other row. |
| `Provisioning.OnboardAllKeeps` | internal/db/provisioning_store.go:84-102 | After any number of snapshot users: foreign rows are untouched, a directory row changed only for a recorded user, and every recorded user is onboarded under the recorded id. |
| `Admission.TurnIff` | internal/db/provisioning_store.go:148-190 | When its turn comes a user is onboarded if and only if, in the table before the run, nothing stood in its way given which earlier users were onboarded. |
| `Admission.OnboardedIff` | internal/db/provisioning_store.go:84-101 | Exactly the users told in snapshot order from the table before the run are onboarded, and new rows are theirs under the ids drawn for them. |
| `Admission.NoSkipsIff` | internal/db/provisioning_store.go:84-101 | A run skips nobody if and only if, before it, every user that belongs has an address and working statements, only rows of EARLIER users that belong hold its address, no earlier one picks the same, no other organisation has its SID, and it has a row or a free id. |
| `Convergence.Converges` | internal/db/provisioning_store.go:84-109 | Exactly these directory users are active afterwards: the ones nothing stood in the way of, told from the table before the run, and the ones that were active and still belong. |
| `Convergence.ConvergesIff` | internal/db/provisioning_store.go:84-109 | Active directory users always are enabled snapshot users of an imported group, and all of them if and only if each was active already or had nothing in its way before the run; so in particular when nothing stood in anybody's way. |
| `Convergence.OthersKept` | internal/db/provisioning_store.go:148-230 | Rows of other sources or organisations are kept as they are, none is added, and the unique indexes hold afterwards. |
| `Convergence.GroupMembersExact` | internal/db/provisioning_store.go:233-262 | Afterwards an imported group has exactly the onboarded users listed under its SID; any other group keeps its members except those suspended by this run. |
| `Convergence.ImportedMembersActive` | internal/db/provisioning_store.go:233-262 | Whoever is in an imported group afterwards is an active directory user of the organisation. |
| `Convergence.ForeignMembers` | internal/db/provisioning_store.go:233-262 | A user of another source or organisation is in a group afterwards if and only if it was before and the group is not imported. |
| `Convergence.ManualMemberLeaves` | internal/db/provisioning_store.go:246-246 | An input at which such a user leaves a group while its row stays as it was. |
| `Convergence.CountersBalance` | internal/db/provisioning_store.go:84-109 | The number of active directory users changes by exactly Onboarded minus Offboarded. |
| `Rows.OnlyEnabledMembersActive` | internal/db/provisioning_store.go:87-109 | Nobody is an active directory user afterwards whom the snapshot does not have as enabled and in an imported group. |
| `Rows.AdmittedRow` | internal/db/provisioning_store.go:148-190 | Every admitted user has exactly one row: active, of the organisation and the directory, with the address and the name the directory gives it. |
| `Rows.OtherRow` | internal/db/provisioning_store.go:148-230 | Every other row was there before and is as before, except that an active directory user no longer enabled in an imported group is suspended. |
| `Rows.RowsThere` | internal/db/provisioning_store.go:148-190 | Which rows there are: those from before, and one under its drawn id for each admitted user that had none. |
| `Rows.MembershipIff` | internal/db/provisioning_store.go:233-262 | A user is in an imported group if and only if it is the row of an admitted user listed under its SID, in any other group if and only if it was before and was not suspended by this run. |
| `Rows.ReportExact` | internal/db/provisioning_store.go:84-109 | What the report counts: offboarded those active before who no longer belong, active everybody onboarded, onboarded those of them not active before. |
| `Settling.UpsertIdle` | internal/db/provisioning_store.go:155-173 | Onboarding an onboarded user writes back the row it has and reports no change. |
| `Settling.OnboardAgain` | internal/db/provisioning_store.go:84-101 | Onboarding from a table in which recorded users stand: each is onboarded again under its id, and the table is written exactly when somebody else is no longer blocked in it. |
| `Settling.SecondRunIdleIff` | internal/db/provisioning_store.go:46-120 | A second run over the same snapshot changes no row and no membership and reports no change, if and only if every user the first did not admit is blocked in the table it left. |
| `Settling.SecondRunIdle` | internal/db/provisioning_store.go:46-120 | When nothing stood in anybody's way before the first run, the second changes nothing and reports 0 onboarded and 0 offboarded. |
| `Settling.SecondRunSuspendsNobody` | internal/db/provisioning_store.go:193-230 | Skips or not, a second run over the same snapshot suspends nobody. |
| `Settling.NextRun` | internal/db/provisioning_store.go:84-101 | A later run records everybody the one before it did, and more unless it changes nothing. |
| `Settling.RunsSettle` | internal/db/provisioning_store.go:46-120 | Repeated runs come to rest: whatever is skipped and whatever ids are drawn, after the first run at most one run per snapshot user that belongs changes anything before a run changes nothing. |
| `Settling.SkippedIsOnboardedLater` | internal/db/provisioning_store.go:161-168 | Order matters: a user whose address is held by the row of a LATER user is not clear, is skipped although the row moves, and is onboarded by the second run; in the other order everybody is clear. |
| `Reconciler.IntersectsGroups` | internal/db/provisioning_store.go:275-282 | True exactly when some SID is that of an imported group. |
| `Reconciler.ContainsStr` | internal/db/provisioning_store.go:284-291 | True exactly when the string is in the list. |
| `Reconciler.FirstNonBlank` | internal/db/provisioning_store.go:293-300 | The first value that is not blank, untrimmed; empty when all are blank. |
| `Reconciler.LoadGroups` | internal/db/provisioning_store.go:57-71 | The last row of a SID wins, every SID read is there, and no two SIDs share a group id. |
| `Reconciler.ProvisioningStore.UpsertClientUser` | internal/db/provisioning_store.go:148-190 | Lookup, update or insert refine the specification; a skip leaves the table as it was. |
| `Reconciler.ProvisioningStore.OffboardMissing` | internal/db/provisioning_store.go:193-230 | Suspends exactly the active directory users that no longer belong, removes exactly their memberships, and returns their number. |
| `Reconciler.ProvisioningStore.ReplaceMembers` | internal/db/provisioning_store.go:246-256 | The group has exactly the given users afterwards, and no other group changes. |
| `Reconciler.ProvisioningStore.SetMemberships` | internal/db/provisioning_store.go:233-262 | Replacing the imported groups one by one, in any order of the map, gives the memberships of the specification. |
| `Reconciler.ProvisioningStore.Reconcile` | internal/db/provisioning_store.go:46-120 | The tables and the report after the run are those of the specification, unique indexes hold, and only users that belong are active. |
| `Reconciler.MembersOf` | internal/db/provisioning_store.go:235-241 | Collects exactly the ids of the onboarded users listed under the SID. |

## Left out

- Certificate loading, TLS listeners, the accept and connection loops, feature-flag polling, `Disconnect` with its table of live sessions, and logging in `internal/radsec`: input and output.
- Overlapping requests of one conversation: each Access-Request is one atomic step, while the code does not lock a session across `advance`.
- The TLS engine, clock, random source and policy engine are inputs of each step; the engine thread may read, write, finish or fail in any order its pipe allows. Token freshness is assumed only where `FreshTokens` says so, and salt uniqueness is not claimed.
- MD5 and HMAC-MD5 are any functions with 16-octet results; nothing is said about their strength.
- Receipts.AcceptReceived: is about decisions whose values fit the 253 octets of an attribute (RoundTripIff says what happens otherwise), and does not claim that the identifier of EAP-Success matches the last response, because `finish` advances it first; section 4.2 of RFC 3748 asks for a match.
- Version messages and timestamps, `LoadDefaults`, the change channel and the sharing of stored policy pointers in the policy store; policy comparison is value equality rather than equality of JSON texts.
- Assistant.GrantAccess: speaks about the final state only, because versions in the middle of the shift loop can be out of order; other calls of the store between its own are not modelled.
- Grant.GrantIsInsertion: requires positive, pairwise distinct sequences, which RunKeepsSequences shows to be kept; with equal sequences the listing is not unique.
- Name resolution, posture warnings, message texts, URL-category grants and the address-object upsert of the assistant: the addresses of the host are a given set, and no policy refers to the new address object unless it already covered the host.
- `internal/db/policy_store.go`: the same semantics behind SQL.
- Splitter.SplitStatements: trims ASCII white space only; the same holds of KeepStatement and StmtHasSql.
- Provisioning.PickedAddress: trims and lowers ASCII only; the same holds of Rows.PickedFrom and Text.FoldIff.
- Reconciler.FirstNonBlank: takes ASCII white space only as blank.
- Assistant.MatchUser: folds the case of ASCII letters and trims ASCII white space only.
- Migration bookkeeping, and everything else in `internal/db/db.go` besides the splitter.
- Reconciler.ProvisioningStore.Reconcile: does not model database failures that abort the run in the middle (loading, suspending, replacing memberships); a failing onboarding is modelled as a skip. Bridging groups, reading the snapshot, status reasons, timestamps and status events are not part of this model.
- Provisioning.UpsertEffect: takes the unique indexes of `internal/db/migrations/008_scim_groups.sql` as given, and that rows of the directory source carry the SID as both subject and external id, which is how the reconciler writes them.
- HTTP handlers, OIDC, DRS, MDM, SCEP, SCIM, mail, portal and scanner code, audit log, feature and profile stores, command signing, gateway registry, mesh and risk scoring: plumbing, or invariants too short to add anything.
