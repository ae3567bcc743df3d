# QUIC-MLS commit recovery, proved in Dafny

Alice and Bob key a QUIC connection from a shared MLS group. Alice is the only one who commits. She
numbers her commits, keeps the unacknowledged ones in a log, and sends the whole window as marked UDP
datagrams beside QUIC; Bob applies what reaches him and reports his epoch back over a stream, which
trims the log. The link is a space link: datagrams are lost, repeated and reordered, and whole contact
windows go by without any.

The project models that protocol down to its bytes, together with the packet and header protection and
the handshake that take their keys from the same group.

| file | models |
|---|---|
| `Bytes.dfy`, `Picking.dfy` | bytes and big-endian integers of fixed width; lists picked out of longer ones |
| `Group.dfy` | the MLS group and `apply_commit_window` |
| `SenderLog.dfy` | Alice's commit log |
| `Transcript.dfy` | the wire form of a window, encoder and decoder |
| `Buckets.dfy` | cutting a window into datagrams, and its optimality |
| `Preamble.dfy` | the socket: sending and demultiplexing |
| `Pipeline.dfy` | when the byte pipeline, datagram by datagram, has the effect of one direct call |
| `Control.dfy` | control messages, the report sender and the report receiver |
| `Protocol.dfy` | the protocol as a step relation, and its safety over every run |
| `Injection.dfy` | the same network with datagrams from anyone, and what then keeps Bob's group right |
| `Schedules.dfy` | liveness on any schedule: what windows delivered in order achieve whatever else happens |
| `Recovery.dfy` | liveness in rounds: when, how fast and how far Bob catches up |
| `HeaderProtection.dfy`, `PacketProtection.dfy` | QUIC header and packet protection in place |
| `Keys.dfy`, `Session.dfy` | key derivation and the handshake state machine |
| `Agreement.dfy` | where protocol state, sessions, keys and packets meet |

How things are modelled:

- An MLS group is the sequence of commits applied since the epoch both peers joined at. Whether the
  library takes a commit is an `Acceptor`, a function of the group and the commit. Safety holds for any
  acceptor, changing from delivery to delivery; liveness asks that it take Alice's own commits in
  order (`Honest`). A refused commit leaves the group as it was.
- The exporter, HKDF, AES and the AEAD are parameters. One law is asked, of the AEAD: `AeadCorrect` (sizes
  are kept, opening undoes sealing); `PacketProtection.OpensExactly` alone also asks that nothing open but
  what was sealed (`AeadExact`). Nothing is assumed about the exporter or HKDF. Where keys are said to
  differ the alternative is spelt out: `Collide` names the two different calls of `export_secret` that came
  to one packet key.
- Preambles are plain UDP, so anyone may send them. `Protocol` has only Alice's own datagrams in flight and
  asks nothing of the library; `Injection` lets any bytes in and asks that the library take, at each point of
  Alice's history, only the commit she made there (`Authentic`), which MLS's signatures and confirmation tags
  are for (section 6.1 of RFC 9420). Every run of the one is a run of the other.
- Sockets, wakers and the network are parameters or nondeterministic steps. The kernel is a list of
  coming answers; failing sends are a count of those that succeed.
- Locks are steps. Alice's commit, her snapshot of the window, each datagram she sends and each trim are
  separate steps, so a report may land between a commit and its snapshot. Delivering or acknowledging
  does not consume what is in flight, so everything may arrive again and in any order.
- Each method is proved against a specification function, and the lemmas are about those functions.

Findings the proofs brought out:

- `total_budget` bounds the entries only. The wire carries nine more bytes for each datagram
  (`Preamble.SendCost`, `Preamble.WireExceedsBudget`).
- A commit of more than 1179 bytes, or of more than `transcript_max_bytes` less 12, stops Bob for good:
  no continuation of any run gets him past it (`Protocol.OversizeCommitBlocksForever`). Conversely he can
  always catch up exactly when no commit he misses is of that kind (`Recovery.CatchUpExactly`,
  `Recovery.CatchUpCanFail`).
- Applying datagram by datagram is not always what one `apply_commit_window` call does: a datagram that
  stops is logged and the next one tried. The two agree, for every library and receiver, exactly when no
  commit comes late in the buckets (`Pipeline.PipelineExactly`); a window of a log always agrees.
- A commit that `to_bytes` fails on is applied to the maker's group and never logged. The log goes on
  numbering its group's commits if and only if there is no such commit; each one puts the numbering one
  further behind (`SenderLog.TracksExactly`, `SenderLog.LoggedCommitsAreShifted`).
- The codec's casts to u32 make the round trip fail exactly when a length or the count reaches 2^32
  (`Transcript.RoundTrip`); no window cut for datagrams does.
- A failing `send_to` leaves the datagrams already sent uncounted in `preamble_bytes_sent`: the counter is
  right exactly when a send succeeds or fails at its first datagram (`Preamble.CountsExactlyWhatIsGiven`).
- Header protection would not invert for a packet number at offset 0; it does for every other offset
  (`HeaderProtection.InvertsExactlyPastFirstByte`).
- 0-RTT and the handshake derive their keys under one label and context, so over one group they are
  the same keys, and so are the handshake's two sets: packets of these sets repeat a nonce exactly when
  they repeat a packet number. Key updates export under contexts of their own
  (`Agreement.NoncesRepeatExactly`, `Agreement.ExportsRepeatExactly`).

## Model

| member | source | states |
|---|---|---|
| Bytes.U64BeInjective | quic-mls/src/session.rs:165 | the 8-byte encoding of a 64-bit number determines it |
| Bytes.MostSignificantFirst | quic-mls/src/transcript.rs:52-55 | `to_be_bytes` puts the heaviest byte first |
| Group.MlsGroup.ApplyCommit | quic-mls/src/group.rs:34-38 | the group takes a commit, or refuses it and stays as it was |
| Group.MlsGroup.CreateCommit | quic-mls/src/group.rs:42-46 | the commit is applied to the maker's own group before it is serialised: a refused one changes nothing, one that cannot be serialised is applied and lost |
| Group.ApplyCommitWindow | quic-mls/src/group.rs:158-174 | the loop computes the specification on group, epoch and outcome, on every exit path, and its increment never overflows |
| Group.ApplyExactly | quic-mls/src/group.rs:158-174 | for windows with any labels: an outcome is the function's if and only if the commits added are those labelled old+1..new, each the first entry above the epoch it leaves, in order and accepted, and the stopping entry explains the status |
| Group.GenuineKeepsPrefix | quic-mls/src/group.rs:163-172 | genuine entries in any order, with any refusals, only move a receiver along the sender's history, by commits the window carried |
| Group.PrefixKeptExactly | quic-mls/src/group.rs:158-174 | entries of any origin only ever move a receiver along a history if and only if the library takes, at each point of it, the next commit alone |
| Group.SliceDelivery | quic-mls/src/group.rs:163-172 | delivering epochs a+1..c takes l to max(l, c) if a <= l and otherwise leaves it, asking for a resync exactly when the slice is non-empty and starts beyond l+1 |
| Group.DeliveriesClosedForm | quic-mls/src/group.rs:158-174 | any sequence of slice deliveries has on group and epoch the effect computed from the slices' bounds alone |
| Group.ExtraDeliveryNeverHurts | quic-mls/src/group.rs:164-165 | stale, duplicate or unusable slices inserted anywhere never lower the final epoch |
| Group.RedeliveryIsNoOp | quic-mls/src/group.rs:164-165 | an accepted slice delivered again later, after anything, changes nothing |
| SenderLog.CommitLog.constructor | quic-mls/src/group.rs:105-112 | a new log is empty at epoch and checkpoint 0 |
| SenderLog.CommitLog.CreateCommit | quic-mls/src/group.rs:75-80 | a commit returned is logged under the next epoch; on a library failure the log and its numbering stay, and the group moves if the commit was lost |
| SenderLog.TracksExactly | quic-mls/src/group.rs:42-80 | after any mix of commits, reports and commits applied but not logged, the group has applied as many more commits than the log counts as went unlogged; the log numbers the group's commits if and only if none did |
| SenderLog.LoggedCommitsAreShifted | quic-mls/src/group.rs:42-80 | in any such mix each epoch in the log has the bytes of one applied commit, as many places past its number as commits had gone unlogged before it |
| SenderLog.CommitLog.ApplyCommit | quic-mls/src/group.rs:71-73 | forwarded to the group without touching epoch, checkpoint or log |
| SenderLog.CommitLog.Trim | quic-mls/src/group.rs:121-125 | the checkpoint rises to the clamped report, never falls, and exactly the acknowledged entries go |
| SenderLog.CommitLog.WindowBytes | quic-mls/src/group.rs:113-119 | returns the logged epochs above the checkpoint, ascending, each with its bytes |
| SenderLog.WindowInOrder | quic-mls/src/group.rs:113-119 | the window lists the epochs above the checkpoint, each once, ascending, with the bytes logged for it |
| SenderLog.WindowIsUnacknowledgedHistory | quic-mls/src/group.rs:113-119 | the window is the unacknowledged part of the sender's history |
| SenderLog.RunLogTracks | quic-mls/src/group.rs:75-125 | after any interleaving of commits and reports the log holds exactly epochs checkpoint+1..current with their original bytes |
| SenderLog.CheckpointIsMaxOfReports | quic-mls/src/group.rs:121-125 | after any interleaving, the checkpoint is the maximum of its old value and each report clamped to the epoch current when it was processed |
| SenderLog.TwoReportsAreTheLarger | quic-mls/src/group.rs:121-125 | two reports amount to the larger, so order and repetition do not matter |
| Transcript.EncodeTranscript | quic-mls/src/transcript.rs:30-59 | the two loops compute the specified bytes |
| Transcript.DecodeTranscript | quic-mls/src/transcript.rs:61-90 | the loop computes the specified window or error |
| Transcript.FitCountIsLongest | quic-mls/src/transcript.rs:38-45 | the entries encoded are the longest prefix whose transcript fits |
| Transcript.TranscriptExactly | quic-mls/src/transcript.rs:30-59 | the bytes are the encoding of the longest prefix that fits, with nothing before or after it |
| Transcript.WireLayout | quic-mls/src/transcript.rs:49-58 | "QMT1", the count, and at each entry's place its epoch, its length cut to 32 bits and its commit, big-endian |
| Transcript.DecodesExactly | quic-mls/src/transcript.rs:61-90 | a blob decodes to w if and only if it starts with the encoding of w and no cast in that encoding was lossy |
| Transcript.RoundTrip | quic-mls/src/transcript.rs:30-90 | with any bytes appended, decoding returns the longest fitting prefix if and only if its lengths and count are below 2^32 |
| Transcript.EmptyTranscript | quic-mls/src/transcript.rs:31-48 | the encoding is empty exactly when not even the first entry fits; it never exceeds the limit |
| Transcript.StrictPrefixTruncated | quic-mls/src/transcript.rs:62-85 | every strict prefix of an encoding decodes to Truncated |
| Transcript.DecodeErrors | quic-mls/src/transcript.rs:62-85 | when BadMagic is reported, and at most (len-8)/12 entries whatever the count field says |
| Buckets.BucketWindow | quic-mls/src/preamble.rs:53-84 | the loop emits the greedy packing of the selected prefix |
| Buckets.SelectedIsLongest | quic-mls/src/preamble.rs:66-71 | the selection is the longest prefix whose entries each fit an empty datagram and together fit the total budget |
| Buckets.PackIsSplit | quic-mls/src/preamble.rs:72-83 | packing loses, adds and reorders nothing; no bucket is empty or over budget |
| Buckets.PackIsOptimal | quic-mls/src/preamble.rs:72-83 | no order-preserving split into parts that fit has fewer parts |
| Buckets.BucketsAreOptimal | quic-mls/src/preamble.rs:53-84 | the buckets hold exactly the selection, in the fewest parts and the fewest wire bytes |
| Buckets.BucketsExactly | quic-mls/src/preamble.rs:53-84 | the buckets are the one split of the selection into non-empty parts that fit in which no part has room for the next one's first entry |
| Preamble.MarkerIsMask | quic-mls/src/preamble.rs:37-39 | a first byte is a marker exactly when its mask with 0xC0 is zero |
| Preamble.BucketDatagram | quic-mls/src/preamble.rs:122-128 | a bucket's datagram is within 1200 bytes and parses back to exactly that bucket |
| Preamble.DatagramBytes | quic-mls/src/preamble.rs:122-128 | a bucket's datagram is the byte 0x00 and then its whole transcript |
| Preamble.SentInOrder | quic-mls/src/preamble.rs:121-134 | the datagrams given to the network are those of the buckets, the first bucket's first, as many as could be sent, and datagram k parses to bucket k |
| Preamble.PreambleSocket.SendPreamble | quic-mls/src/preamble.rs:114-134 | what is sent, returned and counted, with all sends succeeding or failing at any point |
| Preamble.SendCost | quic-mls/src/preamble.rs:114-134 | the bytes returned are the body plus nine per datagram, each datagram within 1200, and no other split costs less |
| Preamble.CountsExactlyWhatIsGiven | quic-mls/src/preamble.rs:114-134 | the bytes counted are those given to the network if and only if every datagram could be sent or none could |
| Preamble.PreambleSocket.HandlePreambleDatagram | quic-mls/src/preamble.rs:140-153 | the sink is called with the decoded window, once, if there is a sink and it decodes, and otherwise not at all |
| Preamble.PreambleSocket.PollRecv | quic-mls/src/preamble.rs:182-222 | the loop over the caller's buffers does what the specification says on the kernel's answers, and buffers and metadata hold the packets |
| Preamble.DrainConserves | quic-mls/src/preamble.rs:182-222 | one poll delivers exactly what arrived in the answers it used, reports their number, and fails or waits only with nothing delivered and for the kernel's reason |
| Preamble.DrainExactly | quic-mls/src/preamble.rs:182-222 | a poll's outcome is the only one that passes over datagrams, and false readiness while nothing is placed, as long as there is room, stops at the first thing else, and reports why |
| Preamble.DemultiplexingConserves | quic-mls/src/preamble.rs:182-222 | over any arrivals and polls QUIC gets exactly the non-preamble datagrams in order and the sink exactly the well-formed preambles in order |
| Preamble.EachToItsDestination | quic-mls/src/preamble.rs:140-222 | in terms of the bytes each buffer keeps: over any arrivals and polls the sink is called once, in order, for exactly the datagrams that are a marker and a transcript of w, with w; QUIC gets exactly those that are empty or have a top bit set; the rest go nowhere |
| Preamble.EverythingIsDelivered | quic-mls/src/preamble.rs:182-222 | polled often enough with room, everything that arrived has reached its destination |
| Preamble.QuicPacketsPassThrough | quic-mls/src/preamble.rs:37-39 | a datagram with bit 0x80 or 0x40 set reaches QUIC unchanged and never the sink |
| Preamble.SentWindowArrives | quic-mls/src/preamble.rs:114-153 | what is sent comes out of the other socket as the buckets that went in, none of it to QUIC |
| Preamble.WireExceedsBudget | quic-mls/src/preamble.rs:114-134 | one commit that uses the whole budget up goes out as nine bytes more than the budget |
| Pipeline.DirectExactly | quic-mls/src/group.rs:158-174 | applying the parts of any window one call each ends, for every library and every receiver, where one call on the whole ends if and only if no commit comes late: whatever stops the one call stops every later part |
| Pipeline.PipelineExactly | quic-mls/src/preamble.rs:53-153 | bucketing, encoding, marking, demultiplexing, decoding and applying equals one direct call on the sent prefix, for every library and every receiver, if and only if no commit comes late in the buckets cut from the window |
| Pipeline.PipelineRefinesDirect | quic-mls/src/preamble.rs:114-153 | so it equals the direct call for every window whose labels never fall and repeat only whole entries, with gaps and with refused commits |
| Pipeline.UnsortedWindowsDiffer | quic-mls/src/preamble.rs:53-84 | one descending window on which the pipeline and the direct call differ |
| Control.RecvStream.ReadMessage | quic-mls/src/control.rs:31-42 | reads the message the stream starts with, and fails on an unknown type or an early end |
| Control.MessageBytes | quic-mls/src/control.rs:15-27 | a report is 0x02 and its epoch in eight bytes, big-endian; a greeting is 0x03 |
| Control.ReadAllInverts | quic-mls/src/control.rs:15-42 | a concatenation of encoded messages parses back to the same list, whatever follows |
| Control.ReadAllExactly | quic-mls/src/control.rs:31-42 | the messages read are ms if and only if the stream starts with their encoding and goes on with no message |
| Control.CutStream | quic-mls/src/control.rs:31-42 | a cut stream yields exactly the messages complete before the cut |
| Control.RunReportReceiver | quic-mls/src/control.rs:57-70 | trims the log by every report in the stream up to the first error, each on top of whatever commits Alice made before it was handled |
| Control.SendStream.WriteMessage | quic-mls/src/control.rs:44-50 | the message goes out whole, or the write fails with any front of it on the stream |
| Control.RunReportSender | quic-mls/src/control.rs:73-89 | writes the encoding of each watched epoch it should report, until a write fails and leaves part of its report |
| Control.SenderExactly | quic-mls/src/control.rs:73-89 | up to the first failing write each turn that should report does so, once, in order, with the epoch it saw, and no other turn writes; of the failing report the bytes it took stay on the stream |
| Control.WireIsFront | quic-mls/src/control.rs:44-89 | the bytes written are a front of the encoding of the reports begun, and hold whole every report whose write succeeded |
| Control.QuietReportsAreTheLargest | quic-mls/src/control.rs:57-70 | with no commit in between, a run of reports has the effect of its largest, clamped |
| Control.ReportsAreClampedInTurn | quic-mls/src/control.rs:57-70 | with commits in between, the checkpoint is the maximum of its old value and each report clamped to the epoch Alice has reached when it is handled |
| Control.ReportsArriveWhole | quic-mls/src/control.rs:44-89 | whatever part of the sender's bytes arrives, after writes failing half way and with commits going on, exactly the reports complete in it are read, the log stays exact, and the checkpoint is the largest of them, each clamped in its turn |
| Protocol.Receiver.OnWindow | space_Channel_Simulation_Test/MLS/testbed-runner/src/main.rs:304-336 | Bob's sink applies the window, keeps what was applied on any outcome, and publishes a changed epoch |
| Protocol.StepKeepsInv | space_Channel_Simulation_Test/MLS/testbed-runner/src/main.rs:461-572 | every step of the protocol keeps the invariant and takes nothing back |
| Protocol.RunsAreSafe | space_Channel_Simulation_Test/MLS/testbed-runner/src/main.rs:304-572 | over every run: checkpoint <= Bob's epoch <= Alice's epoch, none ever falls, the log holds exactly the rest of the history, Bob's group is its prefix, each datagram in flight is QUIC's or carries a slice of it, each report in flight is at most Bob's epoch |
| Protocol.ReachableIsSafe | space_Channel_Simulation_Test/MLS/testbed-runner/src/main.rs:277-572 | the invariant holds in every state reachable from the start |
| Protocol.BucketIsSlice | quic-mls/src/preamble.rs:53-84 | each bucket of a slice is a slice, following those of the buckets before it, of commits that fit |
| Protocol.FitsExactly | quic-mls/src/preamble.rs:66-71 | a commit can be sent exactly when it has at most 1179 bytes and at most the budget less 12 |
| Protocol.OversizeCommitBlocksForever | quic-mls/src/preamble.rs:66-71 | in no continuation of any run does Bob get past a commit too large to be sent |
| Injection.InjectionIsHarmless | space_Channel_Simulation_Test/MLS/testbed-runner/src/main.rs:304-572 | over every run in which anyone may inject any datagrams, with an authenticating library: Bob only moves along Alice's history, checkpoint <= Bob's epoch <= Alice's, and nothing is taken back |
| Injection.RunsAreActions | space_Channel_Simulation_Test/MLS/testbed-runner/src/main.rs:461-572 | every run of the protocol, with libraries that take or refuse at will, is such a run with the same outcome |
| Schedules.AnyScheduleAdvances | space_Channel_Simulation_Test/MLS/testbed-runner/src/main.rs:304-572 | on every run in which the datagrams of a window are delivered in order to an honest library, with any losses, repeats, injections, stale or refused deliveries, reports and commits before, between and after, Bob ends at or past the last epoch the window carried |
| Schedules.AnyScheduleSuffices | space_Channel_Simulation_Test/MLS/testbed-runner/src/main.rs:304-572 | without new commits such a run leaves Bob with Alice's exact group when the budget covers the window |
| Schedules.RoundTripsRecover | space_Channel_Simulation_Test/MLS/testbed-runner/src/main.rs:461-572 | as many windows as Bob is epochs behind, each snapshot taken after a newer report and delivered in order, bring him level under any budget that admits each commit, whatever else happens before, between and among them |
| Recovery.SendRoundAdvances | space_Channel_Simulation_Test/MLS/testbed-runner/src/main.rs:461-465 | the window sent and delivered in order takes Bob to the maximum of his epoch and the last epoch selected |
| Recovery.GivenIsFront | quic-mls/src/preamble.rs:114-134 | what the socket gives to the network is a front of what the protocol sends, all of it if no send fails, and comes out of the other socket as the first buckets in order |
| Recovery.PartialSendAdvances | space_Channel_Simulation_Test/MLS/testbed-runner/src/main.rs:461-465 | a send that fails after any number of datagrams, delivered in the order sent, takes Bob to the maximum of his epoch and the last epoch it carried |
| Recovery.ResendingIsAFixpoint | space_Channel_Simulation_Test/MLS/testbed-runner/src/main.rs:461-465 | without reports, any number of resends ends where the first one does |
| Recovery.OneRoundSuffices | space_Channel_Simulation_Test/MLS/testbed-runner/src/main.rs:461-465 | when the budget covers the window and each commit fits a datagram, one round gives Bob Alice's exact group |
| Recovery.InOrderNeverResyncs | quic-mls/src/group.rs:169-171 | in any state of any run, no bucket of the current window delivered in order asks for a resync |
| Recovery.FullRoundAdvances | space_Channel_Simulation_Test/MLS/testbed-runner/src/main.rs:534-543 | a round of report, trim, send and delivery raises Bob's epoch exactly when the commit he needs next fits |
| Recovery.RecoveryTerminates | quic-mls/src/preamble.rs:63-79 | as many rounds as Bob is epochs behind bring him to Alice's exact group, under any budget that admits each commit |
| Recovery.CatchUpExactly | quic-mls/src/preamble.rs:66-71 | Bob can catch up without a new commit if and only if every commit he misses fits |
| Recovery.CatchUpCanFail | quic-mls/src/preamble.rs:66-71 | after a first commit of 1180 bytes or more, or over the budget, he cannot |
| HeaderProtection.HeaderKey.XorFirstByte | quic-mls/src/header_key.rs:50-57 | masks 4 or 5 low bits of byte 0 in place |
| HeaderProtection.HeaderKey.XorPnBytes | quic-mls/src/header_key.rs:59-63 | masks the packet-number bytes in place and nothing else |
| HeaderProtection.HeaderKey.Encrypt | quic-mls/src/header_key.rs:26-31 | in place, what the specification says |
| HeaderProtection.HeaderKey.Decrypt | quic-mls/src/header_key.rs:18-23 | in place, what the specification says |
| HeaderProtection.ProtectionExactly | quic-mls/src/header_key.rs:26-63 | every byte of a protected packet, at every offset: byte 0 masked in 4 or 5 low bits, and packet[0] mod 4, plus one, packet-number bytes masked |
| HeaderProtection.UnprotectionExactly | quic-mls/src/header_key.rs:18-63 | every byte of an unprotected packet, the length read from the unmasked first byte |
| HeaderProtection.ProtectionInverts | quic-mls/src/header_key.rs:18-31 | protecting and unprotecting undo each other both ways round, for every cipher, key and packet |
| HeaderProtection.ProtectionFrame | quic-mls/src/header_key.rs:26-63 | only the low bits of byte 0 and the 1 to 4 packet-number bytes change |
| HeaderProtection.ProtectionMask | quic-mls/src/header_key.rs:26-63 | each changed byte is masked by its own byte of what AES makes of the sample, as section 5.4.1 of RFC 9001 has it |
| HeaderProtection.InvertsExactlyPastFirstByte | quic-mls/src/header_key.rs:18-31 | inversion holds for every cipher and packet if and only if the packet number starts past byte 0 |
| PacketProtection.ComputeNonce | quic-mls/src/packet_key.rs:21-29 | the loop computes the specified nonce |
| PacketProtection.NonceInjective | quic-mls/src/packet_key.rs:21-29 | under one iv no two packet numbers share a nonce; its first four bytes are the iv's |
| PacketProtection.NonceIsPaddedPacketNumber | quic-mls/src/packet_key.rs:21-29 | the nonce is the iv exclusive-ored with the left-padded packet number in network byte order (section 5.3 of RFC 9001) |
| PacketProtection.PacketKey.Encrypt | quic-mls/src/packet_key.rs:33-45 | in place: header kept, then ciphertext and tag |
| PacketProtection.PacketKey.Decrypt | quic-mls/src/packet_key.rs:48-66 | in place: plaintext without tag, or failure and no change |
| PacketProtection.SealsExactly | quic-mls/src/packet_key.rs:33-45 | what is sent is the header and what the library seals under the packet's nonce with that header as its data |
| PacketProtection.OpensExactly | quic-mls/src/packet_key.rs:48-66 | with a library that opens only what it sealed, a payload opens to a plaintext if and only if it is that plaintext sealed under this key, packet number and header |
| PacketProtection.EncryptThenDecrypt | quic-mls/src/packet_key.rs:33-66 | decryption returns the plaintext and the header is untouched, for every header and payload length |
| Keys.MlsKeysExactly | quic-mls/src/keys.rs:22-62 | keys come if and only if both exports succeed; a client's sending half from "quic-mls c2s " and receiving half from "quic-mls s2c ", a server's the other way round |
| Keys.InitialKeysExactly | quic-mls/src/keys.rs:37-56 | a client's sending half comes from "client in" and receiving half from "server in", a server's the other way round |
| Keys.DirectionsAreSeparate | quic-mls/src/keys.rs:26-62 | a client sends under the c2s export and a server under the s2c one, two different exports, which share a packet key exactly by a collision |
| Keys.SharedKeysCollide | quic-mls/src/keys.rs:58-62 | two derivations of one side from different groups or contexts share no packet key in any direction if and only if no two of their exports collide |
| Keys.PacketCrosses | quic-mls/src/keys.rs:22-35 | a packet sealed and protected with one pair of keys is unprotected and opened with the same pair: same header, packet-number length and plaintext |
| Keys.InitialPacketsCross | quic-mls/src/keys.rs:53-56 | under the Initial keys of one connection id a client's packets under "client in" and a server's under "server in" are unprotected and opened by the other side |
| Session.MlsSession.constructor | quic-mls/src/session.rs:67-79 | a session starts with nothing read or pinned; only a client assumes parameters |
| Session.MlsSession.WriteHandshake | quic-mls/src/session.rs:117-144 | the four-state step on state, pinned keys, output and returned keys |
| Session.MlsSession.ReadHandshake | quic-mls/src/session.rs:146-153 | keeps the parameters parsed unless some were kept before, and fails exactly when none were and the buffer does not parse |
| Session.MlsSession.TransportParameters | quic-mls/src/session.rs:155-158 | the parameters read, and until then the cached ones |
| Session.PeerIsFirstParsed | quic-mls/src/session.rs:146-153 | over every interleaving the parameters kept are those of the first buffer that parses, and none if none does |
| Session.WriteAdvances | quic-mls/src/session.rs:117-144 | wherever a session has come to, one write moves it on by one state with that state's bytes and keys, but waits for the peer's parameters and stays Done |
| Session.DeriveExactly | quic-mls/src/session.rs:104-168 | every derivation exports under "quic-mls c2s 0-rtt" and "quic-mls s2c 0-rtt" |
| Session.EarlyKeysExactly | quic-mls/src/session.rs:104-111 | on either side 0-RTT takes header and packet key from the c2s export with an empty context |
| Session.MlsSession.Next1RttKeys | quic-mls/src/session.rs:161-168 | the next generation's packet keys, of the group as it stands |
| Session.HandshakeRuns | quic-mls/src/session.rs:117-153 | over every interleaving with group commits: the state never regresses, parameters and pinned keys are write-once, and what was sent and returned is fixed by the state |
| Session.HandshakeSafety | quic-mls/src/session.rs:117-153 | keys come at most twice, never before parameters were read, and are always those of the group at the first write_handshake |
| Session.HandshakeCompletes | quic-mls/src/session.rs:117-153 | the ordinary exchange ends Done with exactly two sets of keys, though the group moved in between |
| Session.UpdateContexts | quic-mls/src/session.rs:161-168 | over every interleaving, update i hands out the packet keys of the group as it stood then, under a context no other update and no handshake uses |
| Session.UpdatesAreFresh | quic-mls/src/session.rs:161-168 | over every interleaving, an update shares no packet key with another update, with a set the handshake returned, or between its directions, if and only if no two of the exports they come from, which always differ, collide |
| Agreement.KeysAgreeExactlyWhenLevel | quic-mls/src/keys.rs:58-62 | in every state of every run, the sides' keys match when Bob has caught up, and otherwise only by a collision in both directions |
| Agreement.RecoveryRestoresKeys | quic-mls/src/keys.rs:58-62 | after the recovery rounds both sides derive each other's keys |
| Agreement.HandshakesAgreeExactly | quic-mls/src/session.rs:117-144 | keys returned by two sessions match when both groups stood at one history at their first write_handshake, and otherwise only by a collision in both directions |
| Agreement.HandshakePacketsCross | quic-mls/src/session.rs:117-144 | two sessions, each through its own interleaving, whose groups stood at one history at their first write_handshake: every packet either seals and protects under a returned set the other unprotects and opens |
| Agreement.UpdatesAgreeExactly | quic-mls/src/session.rs:161-168 | update i of one session matches update j of the other when i = j and their groups were equal then, and otherwise only by a collision in both directions |
| Agreement.UpdatePacketsCross | quic-mls/src/session.rs:161-168 | after update i over equal groups, packets cross both ways under the handshake's header keys and the update's packet keys |
| Agreement.EarlyPacketsCross | quic-mls/src/session.rs:104-111 | a client's 0-RTT packets cross to a server whose group stands at the same history; at another history the keys match only by a collision |
| Agreement.ExportsRepeatExactly | quic-mls/src/session.rs:104-168 | wherever a session has come to, two of its sealing keys come from one export if and only if they are two of the handshake's, early keys of the group it pinned, or the very same |
| Agreement.NoncesRepeatExactly | quic-mls/src/session.rs:104-168 | two packets sealed under one such set repeat AEAD key and nonce if and only if they repeat the packet number; under different sets only if two different exports came to one AEAD key |
| Agreement.ProtectedPacketsReachQuic | quic-mls/src/header_key.rs:50-57 | header protection never makes a QUIC packet look like a preamble |

## Left out

- AES, AES-GCM, HKDF and mls-rs: opaque libraries, taken as parameters with the laws named above; the HKDF labels "quic key", "quic iv" and "quic hp" (quic-mls/src/keys.rs:15-20) are inside the parameter `Kdf`.
- SenderLog.CommitLog.CreateCommit: assumes fewer than 2^64 - 1 commits, beyond which the source's `+= 1` panics or wraps by build profile.
- Session.MlsSession.Next1RttKeys: assumes fewer than 2^64 - 1 updates, as above; a failed export, a panic in the source, is returned as None.
- Forged reports: reports travel on QUIC's own authenticated stream, so `Injection` forges datagrams only.
- Races inside one derivation, whose two exports each take the lock (quic-mls/src/keys.rs:59-60): each session call is one step.
- PacketProtection.PacketKey.Decrypt: that a failed decryption leaves the payload unchanged is assumed of the library.
- The runner's loops, timers, reconnects and blackouts: every order of their commits, sends and deliveries is a run of `Protocol.Step`; the loops themselves are not methods. The receive buffers are assumed to hold 1200 bytes (`Sane`).
- `usize` is taken as 64 bits wide and sizes are unbounded; the byte counter's wrap-around is modelled.
- The resend of key updates after a commit (`force_key_update`), quinn's prefetching, transport-parameter varints and the retry tag (quic-mls/src/retry.rs): library behaviour or straight-line code.
- quic-mls/src/hkdf.rs, quic-mls/src/config.rs, the echo programs, telemetry, shell scripts and result files: glue or data.
