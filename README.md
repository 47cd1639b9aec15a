# Proteus in Dafny

Proteus moves one encrypted message, or a stream of tunnelled IP packets, through hostile networks:

- **Sealing.** Each message is sealed with XChaCha20-Poly1305. The 24-byte nonce is prepended to the ciphertext.
- **Envelope.** The sealed blob is optionally framed behind a big-endian `u16` length and padded with zeros to 400 bytes.
- **Fountain code.** The blob is cut into RaptorQ symbols (RFC 6330).
- **Disguise.** Every symbol travels behind a 12-byte header (`seq_id`, timestamp), Base64-encoded inside a fake search request `GET /search?q=<base64>&seq=<n> HTTP/1.1`.
- **Pacing.** A small oracle estimates round-trip time and loss, and paces the sender.

This project models the parts of the repository that its own code controls:

- the header and acknowledgement codec (`src/framing.rs`);
- the oracle (`src/oracle.rs`);
- the envelope and the disguise, as the senders write them and the receivers read them back;
- the send and receive loops of these binaries:
  - `src/client.rs` and `src/bin/stealth_receiver.rs`;
  - `src/bin/proteus.rs` (tank client and relay);
  - `src/bin/proteus_node.rs` and `src/bin/client_shadow.rs`;
  - the two beacons `src/bin/stealth_sender.rs` and `src/bin/wifi_server.rs`;
  - the loss demonstration `src/bin/simulation.rs`.

The RaptorQ codec and the AEAD are foreign. They are passed to the model as functions:

- `Codec.Decoder` maps the transfer length and the packets fed so far to the recovered object or None.
- `Codec.Encoder` maps a payload, a symbol size and a repair count to packets.
- `Codec.Encrypt` and `Codec.Open` are the AEAD. Some lemmas assume the AEAD correctness property `Codec.OpensWhatItSeals`.

Other parameters:

- Clocks, nonces, coin flips and the success of every socket send are inputs.
- A panic on untrusted input (a slice out of range, `split_at(24)` on a short object) is the outcome `Crash` of `Wrappers.Handled`, not a precondition.
- Base64 is the standard alphabet of section 4 of RFC 4648, with padding and a canonical decoder (`base64.dfy`).
- Integer formatting (`{}`) is in `decimal.dfy`.
- `str::find` and `find_subsequence` are in `search.dfy`.

Which ends pair up:

- `src/client.rs` and the tank client send frames with the 12-byte header and the `u16` envelope. The stealth receiver and the relay read them back: `StealthReceiver.ReceiverDeliversSenderLine` and `Proteus.RelayDeliversTankLine`.
- `proteus_node.rs` streams `PROT:`-framed packets after an 8-byte handshake, and `client_shadow.rs` reframes them: `ProteusNode.CleanStreamReadsBack`.
- The two beacons send the raw symbol with no header and no length prefix. The stealth receiver misreads the single-line beacon (`StealthSender.ReceiverMisreadsBeacon`), and both search-line receivers ignore the multi-line one (`WifiServer.ReceiversIgnoreWifiRequest`).

Where the code and its own comments differ, the model follows the code:

- **Spike test.** The comment at src/oracle.rs:32 says a sample is a spike when it exceeds twice the average. The code stores the new average first and then compares the sample with twice that *updated* average (src/oracle.rs:29-33). A sample is therefore a spike exactly when it exceeds 7/3 of the previous average (`Oracle.SpikeThreshold`). A 210 ms sample against a 100 ms average is more than twice that average, yet it is not a spike (`Oracle.UpdatedAverageDampsSpikes`).
- **Missing feedback method.** The tank client calls `brain.update`, which the oracle does not define. The feedback path is modelled as a call to `update_rtt`.

## Model

| member | source | states |
|---|---|---|
| Bytes.FromBeToBe | src/framing.rs:45-46 | reading back the big-endian bytes of a value of n bytes gives the value |
| Bytes.ToBeFromBe | src/framing.rs:45-46 | writing back the value read from n bytes gives those bytes |
| Bytes.ToBeInjective | src/bin/client_shadow.rs:24 | two values of the same width have the same big-endian bytes iff they are equal |
| Bytes.WrapU16 | src/client.rs:32 | `as u16` keeps a value below 2^16 and otherwise differs from it by a multiple of 2^16 |
| Bytes.WrapU32 | src/client.rs:61 | the u32 counter keeps a value below 2^32 and otherwise wraps modulo 2^32 |
| Bytes.WrapU32Succ | src/client.rs:61 | incrementing the wrapped counter equals wrapping the incremented count |
| Bytes.WrapI32 | src/bin/stealth_sender.rs:56 | the i32 counter keeps a value in range and otherwise wraps modulo 2^32 into the signed range |
| Bytes.WrapI32Succ | src/bin/wifi_server.rs:62 | incrementing the wrapped i32 counter equals wrapping the incremented count |
| Decimal.Dec | src/client.rs:51 | the decimal text of a natural number is non-empty, all digits, with no leading zero |
| Decimal.DecInt | src/bin/stealth_sender.rs:49-52 | the decimal text of an i32 starts with '-' exactly when the number is negative, and the digits after it have the number's magnitude as their value |
| Decimal.DecRoundTrip | src/client.rs:51 | the digits of `Dec(n)` read back as n |
| Search.Find | src/bin/client_shadow.rs:97-99 | Some exactly when the needle occurs; then the position of its first occurrence |
| Base64.Encode | src/client.rs:49 | the encoding has 4·ceil(n/3) characters, all from the alphabet or '=' |
| Base64.DecodeEncode | src/bin/stealth_receiver.rs:40 | decoding the encoding of any bytes gives them back |
| Base64.Decode | src/bin/stealth_receiver.rs:40 | the definition of `STANDARD.decode` (also src/bin/proteus.rs:199): it accepts only a text whose length is a multiple of 4, and yields at most 3 bytes per 4 characters. `Base64.DecodeEncode` and `Base64.EncodeDecode` pair it with `Base64.Encode` |
| Base64.EncodeDecode | src/bin/proteus.rs:199 | whatever decodes is the canonical encoding of what it decodes to |
| Base64.EncodeInjective | src/client.rs:49 | different bytes have different encodings |
| Base64.EncodeHasNoAmpersand | src/bin/stealth_receiver.rs:37 | no encoding contains '&', so the `&seq` marker cannot occur inside the field |
| Base64.EncodeHasNoLineBreak | src/bin/wifi_server.rs:55 | no encoding contains CR or LF, so the payload header stays one line |
| Framing.CopyFromSlice | src/framing.rs:31 | the array holds the source at the offset and is unchanged elsewhere |
| Framing.HeaderToBytes | src/framing.rs:27-37 | a fresh 12-byte array holding the header's image |
| Framing.AckToBytes | src/framing.rs:67-72 | a fresh 12-byte array holding the acknowledgement's image |
| Framing.HeaderFromBytes | src/framing.rs:40-49 | None exactly below 12 bytes; otherwise the header whose image is the first 12 bytes |
| Framing.AckFromBytes | src/framing.rs:74-79 | None exactly below 12 bytes; otherwise the acknowledgement whose image is the first 12 bytes |
| Framing.NewAck | src/framing.rs:63-65 | the acknowledgement carries the given sequence number and timestamp |
| Framing.HeaderLayout | src/framing.rs:27-37 | bytes 0..4 of the image read back as `seq_id` and bytes 4..12 as the timestamp, big-endian |
| Framing.HeaderRoundTrip | src/framing.rs:27-49 | parsing the image of a header followed by any bytes gives the header |
| Framing.AckRoundTrip | src/framing.rs:67-79 | parsing the image of an acknowledgement followed by any bytes gives it back |
| Framing.AckIsHeaderOnWire | src/framing.rs:62-79 | an acknowledgement echoing a frame's header has the frame's first 12 bytes as its image, and those bytes parse as that acknowledgement |
| Oracle.NextSrtt | src/oracle.rs:29-30 | the new smoothed RTT lies between the old value and the sample, and stays positive |
| Oracle.NextLoss | src/oracle.rs:33-37 | the loss estimate stays within [0, 1] |
| Oracle.NetworkOracle.constructor | src/oracle.rs:13-20 | start state: 100 ms smoothed RTT, zero variance, zero loss |
| Oracle.NetworkOracle.UpdateRtt | src/oracle.rs:23-38 | the new average, then the loss step decided against the new average; the variance and the last-sent instant are unchanged; the new (average, loss) pair is `Oracle.Step` of the old one |
| Oracle.NetworkOracle.PacingInterval | src/oracle.rs:41-45 | a tenth of the smoothed RTT, positive and shorter than it |
| Oracle.SpikeThreshold | src/oracle.rs:33 | a sample is a spike iff it exceeds 7/3 of the average it arrived to |
| Oracle.IsSpike | src/oracle.rs:33 | the definition of the spike test, made against the updated average; a spike sample is above that average. `Oracle.SpikeThreshold` restates the test against the previous average |
| Oracle.UpdatedAverageDampsSpikes | src/oracle.rs:29-33 | a 210 ms sample against 100 ms is above twice the old average but not a spike |
| Oracle.Step | src/oracle.rs:29-38 | one sample moves the average between its old value and the sample; the loss estimate takes the spike step exactly when the sample exceeds 7/3 of the old average, and stays within [0, 1] |
| Oracle.CalmDrivesLossToZero | src/oracle.rs:35-36 | k calm samples lower the loss by 0.01 each, floored at 0 |
| Oracle.SpikesDriveLossToOne | src/oracle.rs:33-34 | k spiking samples raise the loss by 0.1 each, capped at 1 |
| Oracle.RunSrttBounds | src/oracle.rs:29 | the average of a run stays within any range that holds its start and all samples |
| Envelope.Seal | src/client.rs:30-31 | the blob is the 24-byte nonce followed by the ciphertext |
| Envelope.SplitNonce | src/bin/stealth_receiver.rs:71 | panics (None) exactly below 24 bytes; otherwise a 24-byte nonce and the rest, which concatenate to the input |
| Envelope.LengthPrefix | src/client.rs:32-33 | two bytes whose big-endian value is the length modulo 2^16 |
| Envelope.Frame | src/client.rs:30-34 | the length prefix followed by the blob |
| Envelope.PadToTarget | src/bin/proteus.rs:110-113 | padded to 400 bytes when shorter, else unchanged; the payload is a prefix and every added byte is zero |
| Envelope.Unwrap | src/bin/stealth_receiver.rs:61-69 | None exactly when fewer than 2 bytes, or fewer than the declared length, follow; otherwise exactly the declared bytes |
| Envelope.RelayUnwrap | src/bin/proteus.rs:207-210 | panics exactly below 2 bytes; otherwise accepts exactly what the receiver's unwrap accepts |
| Envelope.OpenPayload | src/bin/stealth_receiver.rs:71-81 | panics exactly below 24 bytes; otherwise accepts exactly what the AEAD opens, and skips what it rejects |
| Envelope.ReceiverUnseal | src/bin/stealth_receiver.rs:61-81 | the definition of what the stealth receiver does with a decoded object: a panic exactly when the declared slice is shorter than the nonce; delivery only of what the AEAD opens from that slice. `Envelope.ReceiverOpensFrame` gives the sender's side |
| Envelope.RelayUnseal | src/bin/proteus.rs:207-218 | the definition of what the relay does with a decoded object: a panic below 2 bytes, otherwise the stealth receiver's outcome. `Envelope.RelayOpensPaddedFrame` gives the tank client's side |
| Envelope.SplitSeal | src/bin/simulation.rs:101 | splitting a sealed blob gives back the nonce and the ciphertext |
| Envelope.UnwrapFrame | src/bin/stealth_receiver.rs:61-69 | the envelope of a blob under 2^16 bytes unwraps to the blob, whatever follows it |
| Envelope.UnwrapFrameWraps | src/client.rs:32 | a longer blob unwraps to its first length-mod-2^16 bytes |
| Envelope.PadToTargetAppends | src/bin/proteus.rs:110-113 | padding only appends zeros |
| Envelope.UnwrapPadded | src/bin/proteus.rs:207-210 | both unwraps recover the blob from the padded envelope |
| Envelope.PaddedSize | src/bin/proteus.rs:110-113 | the padded envelope has exactly 400 bytes iff the blob has at most 398 |
| Envelope.UnwrapsAgree | src/bin/proteus.rs:207-218 | on objects of at least 2 bytes the relay and the receiver unwrap and open identically |
| Envelope.ShortPayloadPanics | src/bin/proteus.rs:211 | a declared length below 24 makes both receiving ends panic |
| Envelope.EmptyDeclaredLengthPanics | src/bin/stealth_receiver.rs:61-71 | the two-byte object [0, 0] passes the unwrap and then panics |
| Envelope.ReceiverOpensFrame | src/bin/stealth_receiver.rs:61-75 | the receiver recovers the message from the sender's envelope |
| Envelope.RelayOpensPaddedFrame | src/bin/proteus.rs:207-214 | the relay recovers the packet from the tank client's padded envelope |
| Disguise.SearchLine | src/client.rs:51 | the line starts with `GET /search?q=` followed by the Base64 of the payload |
| Disguise.ExtractQuery | src/bin/stealth_receiver.rs:36-38 | no field exactly when a marker is missing; otherwise the text between the first `q=` and the first `&seq` |
| Disguise.ParseSearchLine | src/bin/stealth_receiver.rs:36-45 | panics exactly when the slice does; accepts exactly a field that decodes to at least 12 bytes, and gives those bytes |
| Disguise.ExtractSearchLine | src/bin/proteus.rs:196-198 | the field of every search line is exactly the Base64 put there |
| Disguise.ParseSearchLineRoundTrip | src/bin/proteus.rs:196-200 | a line carrying a unit of at least 12 bytes parses to the unit; shorter units are skipped |
| Disguise.MarkersOutOfOrderPanic | src/bin/proteus.rs:198 | a line whose first `&seq` precedes its first `q=` panics |
| Disguise.WifiMessage | src/bin/wifi_server.rs:51-58 | the request line `GET /api/v1/sync?seq=<n> HTTP/1.1`, and the request ends with an empty line |
| Disguise.PayloadHeaderValue | src/bin/wifi_server.rs:55 | a reader for the payload header: its value is followed by CRLF right after the first `X-Goog-Payload: ` |
| Disguise.WifiPayloadRoundTrip | src/bin/wifi_server.rs:51-58 | the payload header of a request carries exactly the Base64 of the symbol |
| Disguise.WifiMessageHasNoAmpersand | src/bin/wifi_server.rs:51-58 | a request contains no '&' |
| Disguise.WifiMessageIsSkipped | src/bin/stealth_receiver.rs:36-37 | a search-line receiver finds no markers in a request and skips it |
| Client.WireUnit | src/client.rs:44-47 | the unit parses back to its header, and the symbol follows the 12 header bytes |
| Client.MakeLine | src/client.rs:44-51 | the line sent for a sequence number, timestamp and symbol |
| Client.FirstPacing | src/client.rs:55-60 | an oracle that was never fed paces at 10 ms |
| Client.StartSender | src/client.rs:23-63 | line i carries header (i mod 2^32, clock(i)) and the first packet of the sealed, framed message; every pause is 10 ms |
| Client.SenderSymbol | src/client.rs:30-42 | the definition of the symbol sent: one of the packets the encoder yields for the framed, sealed message (the first). `Client.StartSender` sends it |
| Client.SenderLine | src/client.rs:43-51 | the definition of the line sent: it starts with the search prefix and ends with a newline. `Client.SenderLineParses` states that a receiver parses it back to its unit, and `Client.MakeLine` builds it |
| Client.SenderLineParses | src/client.rs:49-51 | a receiver parses every sender line back to the unit it carries |
| StealthReceiver.Truncate | src/bin/stealth_receiver.rs:28-34 | a datagram longer than the 2048-byte buffer keeps exactly its first 2048 characters; a shorter one is unchanged |
| StealthReceiver.RxDatagramAck | src/bin/stealth_receiver.rs:36-56 | ignored or panicking exactly as the line is; otherwise the acknowledgement is the frame's first 12 bytes and the rest is fed to the decoder |
| StealthReceiver.DeliveryNeedsAuthentication | src/bin/stealth_receiver.rs:74-81 | no datagram delivers when the AEAD opens nothing |
| StealthReceiver.ReceiveLoop | src/bin/stealth_receiver.rs:30-94 | the loop ends in the state of the reference run over the datagrams |
| StealthReceiver.RxDatagram | src/bin/stealth_receiver.rs:36-82 | the definition of one datagram's handling: an acknowledgement of 12 bytes, and delivery or a panic only once the decoder recovers an object with the new symbol. `StealthReceiver.RxDatagramAck` and `StealthReceiver.ReceiverDeliversSenderLine` state its properties |
| StealthReceiver.RxRun | src/bin/stealth_receiver.rs:30-94 | the definition of the receive loop's run: at most one symbol fed per datagram. `StealthReceiver.ReceiveLoop` is proved equal to it, and `StealthReceiver.AcksMatchFed` and `StealthReceiver.NothingOpensNothingDelivered` state its properties |
| StealthReceiver.AcksMatchFed | src/bin/stealth_receiver.rs:43-56 | one acknowledgement per symbol fed; both only grow |
| StealthReceiver.NothingOpensNothingDelivered | src/bin/stealth_receiver.rs:58-82 | without an authentic ciphertext the loop never delivers |
| StealthReceiver.ReceiverDeliversSenderLine | src/bin/stealth_receiver.rs:36-79 | a sender line whose symbol completes decoding is acknowledged with its own header and delivers the message |
| Proteus.Redundancy | src/bin/proteus.rs:94-95 | the repair count passed to the encoder is 2 iff the loss estimate exceeds 10%, else 1 |
| Proteus.RedundancyMonotone | src/bin/proteus.rs:94-95 | a higher loss estimate never passes a smaller repair count |
| Proteus.TankLines | src/bin/proteus.rs:118-127 | one line per encoder packet; a receiver extracts from line k exactly packet k behind a header with the shared sequence number and that send's timestamp |
| Proteus.FirstRefused | src/bin/proteus.rs:128 | the first refused send, or the count when none is refused |
| Proteus.FirstRefusedIs | src/bin/proteus.rs:128 | an index reached past accepted sends and stopped by a refusal or the end is the first refused send |
| Proteus.BuildTankPayload | src/bin/proteus.rs:102-113 | the sealed, framed and padded envelope of the tunnel packet |
| Proteus.TankPayload | src/bin/proteus.rs:102-113 | the definition of the tunnel packet's envelope: at least 400 bytes, and both receiving ends unwrap it to the sealed blob when that blob is under 2^16 bytes. `Proteus.RelayDeliversTankLine` completes the round trip |
| Proteus.SendAll | src/bin/proteus.rs:118-129 | exactly the lines before the first refused send go out |
| Proteus.TankClient.constructor | src/bin/proteus.rs:49-63 | a fresh oracle, sequence number 0, feedback clock started |
| Proteus.TankClient.OnServerData | src/bin/proteus.rs:66-88 | "OK" feeds the gap since the last feedback to the oracle; other non-empty data goes to the tunnel; nothing else changes |
| Proteus.TankClient.OnTunPacket | src/bin/proteus.rs:91-130 | sends the lines before the first refusal and advances the sequence number by one in every case |
| Proteus.TankClient.OnTunIdle | src/bin/proteus.rs:133-134 | the pause is a tenth of the smoothed RTT, and positive |
| Proteus.TankLinesShareSeq | src/bin/proteus.rs:118-129 | every line of one tunnel packet parses to a header with that packet's sequence number |
| Proteus.RelayLine | src/bin/proteus.rs:196-219 | a line panics when its slice does, is skipped when it does not parse, and delivers only what a fresh decoder recovers from its one symbol |
| Proteus.Collect | src/bin/proteus.rs:191-226 | the connection panicked iff some line panicked; at most one write per line |
| Proteus.LineOutcomesAppend | src/bin/proteus.rs:203-205 | each line is handled with a fresh decoder: the outcomes of two runs of lines concatenate, so no line's outcome depends on the lines around it |
| Proteus.RelayRun | src/bin/proteus.rs:191-226 | the definition of one connection's outcome: the relay panics on the connection exactly when one of its lines panics, and writes at most one tunnel packet per line. `Proteus.RelayConnection` is proved equal to it, and `Proteus.RelayRunAppend` and `Proteus.RelayDeliversTankLine` state its properties |
| Proteus.RelayConnection | src/bin/proteus.rs:191-226 | the read loop ends in the state of the reference run over the lines |
| Proteus.CollectAppend | src/bin/proteus.rs:191-226 | after a prefix without panic, the outcomes of the rest simply append |
| Proteus.RelayRunAppend | src/bin/proteus.rs:203 | no decoder state carries over between lines |
| Proteus.RelayDeliversTankLine | src/bin/proteus.rs:196-218 | a tank line whose symbol alone decodes to the padded envelope delivers exactly the tunnel packet |
| ClientShadow.FrameLength | src/bin/client_shadow.rs:28-29 | the marker has 5 bytes and a frame 521 |
| ClientShadow.HandshakeValue | src/bin/client_shadow.rs:21-24 | the transfer length whose big-endian bytes are the handshake |
| ClientShadow.TrimAtNul | src/bin/client_shadow.rs:72 | the longest prefix without a zero byte, stopped by a zero |
| ClientShadow.TrimAtNulRemovesPadding | src/bin/client_shadow.rs:72 | trimming a zero-free message followed by zeros gives the message back |
| ClientShadow.ShadowClient.constructor | src/bin/client_shadow.rs:21-43 | the decoder is configured with the announced length; the accumulator is empty |
| ClientShadow.ShadowClient.OnRead | src/bin/client_shadow.rs:48-90 | after a read, the accumulator, the packets fed and the outcome are those of the reference scan |
| ClientShadow.NoFrame | src/bin/client_shadow.rs:54-89 | without a marker followed by a full frame, the loop stops at once and keeps everything |
| ClientShadow.ScanStreaming | src/bin/client_shadow.rs:54-86 | while nothing is recovered, the scan feeds exactly the reframed packets and keeps the reframed rest |
| ClientShadow.Reframe | src/bin/client_shadow.rs:54-89 | the definition of cutting frames out of the accumulator: each packet cut out uses up a whole 521-byte frame. `ClientShadow.ReframeUnits`, `ClientShadow.ReframeAppend` and `ClientShadow.ReframeFrameSize` state its properties |
| ClientShadow.ScanFrom | src/bin/client_shadow.rs:54-89 | the definition of the read loop's scan: the packets fed only grow, one 521-byte frame per packet. `ClientShadow.ShadowClient.OnRead` is proved equal to it, and `ClientShadow.ScanStreaming` ties it to `ClientShadow.Reframe` |
| ClientShadow.ReframeAppend | src/bin/client_shadow.rs:52-54 | reframing two reads at once equals reframing the first, then its rest with the second |
| ClientShadow.ReframeRest | src/bin/client_shadow.rs:86 | what stays in the accumulator is a suffix of it |
| ClientShadow.ReframeFrameSize | src/bin/client_shadow.rs:57-59 | every packet cut out has 516 bytes |
| ClientShadow.ReframeUnits | src/bin/client_shadow.rs:54-86 | a stream of marker-plus-packet units reframes to exactly those packets, with nothing left |
| ClientShadow.LoneMarkerShiftsFrame | src/bin/client_shadow.rs:54-59 | after a marker sent without its packet, the next frame cut out is a marker and the packet's first 511 bytes |
| ProteusNode.HandshakeBytes | src/bin/proteus_node.rs:79 | the handshake has 8 bytes |
| ProteusNode.HandshakeRoundTrip | src/bin/proteus_node.rs:77-84 | the shadow client reads back the announced size |
| ProteusNode.Node.constructor | src/bin/proteus_node.rs:28-59 | the blob is the sealed message, its size is announced, and the loop variables start cleared |
| ProteusNode.Node.Poll | src/bin/proteus_node.rs:62-109 | one loop turn moves the state as the step relation says |
| ProteusNode.Node.EventLoop | src/bin/proteus_node.rs:62-110 | the loop ends in the state of the reference run over the events |
| ProteusNode.Step | src/bin/proteus_node.rs:66-108 | the definition of one poll turn: while the connection stays open the stream only grows, and the counter moves only when both sends were accepted. `ProteusNode.StepConsistent` and `ProteusNode.StepClean` state the invariants it keeps |
| ProteusNode.Run | src/bin/proteus_node.rs:62-110 | the definition of a run of turns: while the connection stays open the stream only grows. `ProteusNode.Node.EventLoop` is proved equal to it, and `ProteusNode.RunConsistent` and `ProteusNode.RunClean` state its invariants |
| ProteusNode.ResetOnClose | src/bin/proteus_node.rs:68-72 | a closed socket clears the state before anything is sent |
| ProteusNode.StepConsistent | src/bin/proteus_node.rs:74-108 | a connection's stream starts with the handshake once it was sent, and is empty before |
| ProteusNode.RunConsistent | src/bin/proteus_node.rs:62-110 | every run from the start keeps that invariant |
| ProteusNode.HandshakeOnlyOnSuccess | src/bin/proteus_node.rs:77-88 | the handshake counts as sent only after a successful send, and then the stream is just the handshake |
| ProteusNode.StepClean | src/bin/proteus_node.rs:95-98 | without lone markers, a turn keeps the stream equal to the handshake followed by k units, and the counter at k |
| ProteusNode.RunClean | src/bin/proteus_node.rs:89-108 | every run without lone markers keeps that shape |
| ProteusNode.CleanStreamReadsBack | src/bin/proteus_node.rs:79-96 | the shadow client reads the size back and reframes exactly the k packets sent |
| ProteusNode.LoneMarkerMisframes | src/bin/proteus_node.rs:95-107 | a marker whose packet was refused makes the next frame a marker and a truncated packet |
| Beacon.Successes | src/bin/stealth_sender.rs:54-56 | the number of successful sends, at most the number of turns |
| Beacon.SuccessesStep | src/bin/wifi_server.rs:60-63 | a failed send leaves the counter unchanged and a successful one adds one |
| Beacon.SendLoop | src/bin/stealth_sender.rs:40-65 | turn i formats the count of earlier successes; the delivered requests carry 0, 1, 2, … in order |
| StealthSender.BeaconLine | src/bin/stealth_sender.rs:49-52 | the search line around the raw symbol, with no line terminator |
| StealthSender.RunBeacon | src/bin/stealth_sender.rs:28-65 | every turn sends the line of the first packet under the count of earlier successes |
| StealthSender.BeaconLineExtracts | src/bin/stealth_sender.rs:49-52 | the receivers cut exactly the Base64 of the symbol out of the line |
| StealthSender.ReceiverMisreadsBeacon | src/bin/stealth_sender.rs:41-52 | the stealth receiver echoes the symbol's first 12 bytes as an acknowledgement and feeds only the rest |
| WifiServer.RunWifiBeacon | src/bin/wifi_server.rs:31-71 | every turn sends the request of the first packet under the count of earlier successes |
| WifiServer.WifiRequest | src/bin/wifi_server.rs:51-58 | the definition of the request for one counter value: its request line is `GET /api/v1/sync?seq=` with the counter in decimal, and its payload header carries exactly the Base64 of the symbol. `WifiServer.RunWifiBeacon` sends it, and `WifiServer.ReceiversIgnoreWifiRequest` states that the search-line receivers skip it |
| WifiServer.ReceiversIgnoreWifiRequest | src/bin/wifi_server.rs:51-58 | both search-line receivers skip every request, including its cut to 2048 bytes |
| Simulation.SourceCount | src/bin/simulation.rs:41 | the least number of 4-byte symbols that cover the blob |
| Simulation.RepairCount | src/bin/simulation.rs:42 | half the source count, rounded down |
| Simulation.TotalPackets | src/bin/simulation.rs:42-43 | the repair count passed to the encoder: the source count plus half of it, rounded down |
| Simulation.Kept | src/bin/simulation.rs:58-67 | kept and dropped packets add up to all packets |
| Simulation.SimulateLoss | src/bin/simulation.rs:54-67 | received holds the kept packets in order; lost and received add up to all packets |
| Simulation.KeptIsSubsequence | src/bin/simulation.rs:58-67 | received packet k is the packet at the k-th kept position |
| Simulation.KeptIndicesOrdered | src/bin/simulation.rs:58-67 | the kept positions strictly increase, and a position is kept iff its coin kept it |
| Simulation.FirstDecodeFromSpec | src/bin/simulation.rs:85-91 | from position i on, the first answer is None iff no longer prefix decodes, else that of the shortest one that does |
| Simulation.FirstDecodeSpec | src/bin/simulation.rs:82-91 | the result is None iff no prefix of the survivors decodes; otherwise the decoder's answer to the shortest prefix that does |
| Simulation.DecodeFirst | src/bin/simulation.rs:82-91 | the loop stops at the first recovered object |
| Simulation.FirstDecode | src/bin/simulation.rs:82-91 | the definition of the decode loop's answer: None exactly when no prefix of the survivors decodes. `Simulation.FirstDecodeSpec` adds that it answers the shortest prefix that does, and `Simulation.DecodeFirst` is proved equal to it |
| Simulation.Finish | src/bin/simulation.rs:93-109 | not enough packets iff nothing decoded; a panic iff the split or the decryption fails; otherwise the opened message |
| Simulation.FinishOpensSealedBlob | src/bin/simulation.rs:101 | splitting the recovered blob gives back the bundled nonce, so it opens to the plaintext |
| Simulation.Simulate | src/bin/simulation.rs:9-110 | the verdict is that of the first decode over the surviving packets |
| Simulation.SimulationOutcome | src/bin/simulation.rs:82-109 | with a decoder that only recovers the blob, the run ends with the plaintext, or with too few packets exactly when no prefix decodes |

## Left out

- The RaptorQ encoder and decoder (RFC 6330) and XChaCha20-Poly1305 are foreign code. They are function parameters. Nothing is assumed about how many packets an encoder yields, except `packets[0]` where the code indexes it.
- f64 and f32 rounding (`as_secs_f64`, `from_secs_f64`, `div_f64`, the f32 `ceil` of the symbol count) is not modelled.
- Oracle.NextSrtt: durations are exact non-negative reals; `Duration`'s nanosecond rounding is not modelled.
- Simulation.SourceCount: exact integer ceiling; f32 loses precision for blobs beyond 2^24 bytes, which the demonstration never reaches.
- Simulation.TotalPackets: the `u32` addition is unbounded here.
- Bytes.WrapU32: the sequence counters wrap. A debug build would panic on overflow instead; that panic is not modelled.
- Bytes.WrapI32: as for Bytes.WrapU32.
- Clocks (`SystemTime::now`, `Instant::now`), `OsRng` nonces and the 40% coin flip are inputs. `PacketHeader::new` is therefore a header with a given timestamp.
- Sockets, the TUN device, threads, `Arc<Mutex<…>>`, sleeps, printing and the command line are not modelled. The relay's uplink thread (tunnel to socket, raw) is not modelled.
- The relay's downlink loop runs on `run_relay_server`'s own thread; only the uplink is spawned (src/bin/proteus.rs:168). A `Crash` outcome of `Proteus.RelayLine` therefore stops the whole relay, not just one connection. `Proteus.RelayConnection` models one connection up to that point; the connections after it are not modelled.
- Panics inside the foreign RaptorQ code are not modelled. `EncodingPacket::deserialize` panics on a symbol shorter than 4 bytes (src/bin/stealth_receiver.rs:56, src/bin/proteus.rs:204, src/bin/client_shadow.rs:61), while the model's `Codec.Decoder` is a total function. A short symbol is therefore decoded or skipped in the model, where the source panics.
- `read_line` splitting of the relay's TCP stream: the relay is given its lines.
- The shadow client's `read_exact` handshake failure (a panic) and its connection errors are not modelled; the model starts after a successful handshake.
- Beacon.SendLoop: the beacons and the node loop forever; the model runs any finite number of turns. The same holds for Client.StartSender, ProteusNode.Node.EventLoop, StealthReceiver.ReceiveLoop and ClientShadow.ShadowClient.OnRead.
- A socket send either succeeds or fails as a whole; partial `send_slice` writes are not modelled.
- `String::from_utf8_lossy` and `from_utf8(...).unwrap()` are not modelled. Lines are character strings, and messages are bytes.
- `src/bin/server.rs`, `src/bin/client.rs`, `src/transport.rs`, `src/vpn.rs` and the smoltcp set-up of `src/bin/proteus_node.rs` are not part of this model.
