# TinyRTC in Dafny

TinyRTC is a WebRTC stack in C. This project models the parts of it that are state and arithmetic of its
own, in the form the C code has, and proves what they do over whole runs and across modules:

- **Media path** (`Rtp`, `Packetizer`, `Srtp`, `Depacketizer`, `MediaSender`, `MediaReceiver`, `MediaPath`,
  `MediaRoundTrip`, `MediaStream`): a frame is cut into units and fragments, headed, encrypted in counter mode, sent, and all
  of it is undone and reassembled, one frame after another.
- **Jitter buffer** (`JitterBuffer`, `JitterRuns`): four parallel arrays as one list in wrapping order.
- **Session descriptions** (`Text`, `Sdp`, `SdpGenerator`, `SdpParser`, `SdpRoundTrip`, `SdpImage`,
  `SdpExchange`, `SdpView`, `SdpBuilder`): the printer, the parser that inverts it, and what a peer reads in the
  lines that this parser ignores.
- **ICE and STUN** (`Crc32`, `Stun`, `StunMessages`, `Ice`, `IceRuns`, `IceExchange`): messages, the agent as
  a state machine, and two agents that connect.
- **Signalling** (`Json`, `WebSocket`, `Signaling`, `SignalingRuns`): frames, fragments, escaping, and a
  session carried end to end.
- **Congestion control** (`CongestionControl`, `CongestionRuns`, `Quotients`): reports, limits, convergence and
  pacing.

`Octets` and `Results` are shared. `dafny verify dfyconfig.toml` checks everything.

## How to read it

Where the C code changes an object in place there is a class or a method over an array, and its contract says
that the new state is a function of the old one. The properties are then proved about that function: one step
keeps an invariant, a run has a property, an encoding is undone. Pointers into arrays are indices. Functions of
libraries (the block cipher, the keyed hash, the random masks, the clock) are parameters, so that every result
holds for all of them. Callbacks and sockets are sequences of what was delivered and what was sent.

A function that specifies a method is in turn held by a law that does not mention it: wire formats are stated
byte by byte in numbers, texts are read by a second reader, and what a step of an agent, a buffer or a
connection does is stated for whole runs, exactly when it happens.

The model follows the code where the code and its comments or the standards differ:

- `tinyrtc_signaling_process` says that it reads as much as possible. It reads one frame a call, because the
  reader never returns a positive number, and so it always reports zero.
- The key stream of SRTP restarts for every packet: neither the sequence number nor the rollover counter enters
  the counter block (src/media/srtp.c:182-194), and the source of every packet that the sender makes is 0, so all
  packets of a session share one key stream. RFC 3711, section 4.1.1, makes it depend on the packet index
  (`Srtp.KeyStreamRepeats`).
- The message integrity of STUN is computed over the attribute itself, its digest zeroed, and the fingerprint
  also covers its own attribute header; RFC 5389 leaves both out.
- The STUN reader trusts the length field of the header, up to 1500, and not the number of bytes received.
- A response to a connectivity check adds a server-reflexive candidate, as a response of the server does.
- The priority macro of host candidates binds its subtraction tighter than its alternatives; from the
  fourteenth candidate on the low part wraps around.
- Unknown messages of the signalling server reach the callback with an event type that was never set (`Unset`).
- In an origin line without numbers, the session id is whatever the variable held (`SdpParser.Unset`).
- `atoi` is taken as the cast of `strtol`, as C libraries implement it. A clock rate is then read back for every
  32-bit value.
- A last line without `=` and without a line end moves the SDP parser past the terminator (`SdpParser.Fault`).

## Model

| member | source | states |
|---|---|---|
| `Rtp.ParseHeader` | src/media/rtp.c:34-112 | Reads exactly the fields of the packet layout, and refuses short packets and other versions |
| `Rtp.ParseIdentifiers` | src/media/rtp.c:34-112 | The contributing sources are the words after the fixed header, if the packet holds them all |
| `Rtp.BuildHeader` | src/media/rtp.c:114-169 | Writes the header bytes and nothing else, or returns 0 and writes nothing when an extension is asked for or the room is too small |
| `Rtp.ParsedOfBuilt` | src/media/rtp.c:34-169 | Every header that can be built is parsed back, and its payload is what followed it |
| `Rtp.BuiltOfParsed` | src/media/rtp.c:34-169 | Building a parsed header without extension restores its bytes |
| `Rtp.ParsedOfLaid` | src/media/rtp.c:34-192 | A packet laid out in its parts, with or without an extension of any number of 4-byte words: the header is accepted with the given fields, and the payload is the given one |
| `Rtp.LaidOfParsed` | src/media/rtp.c:34-192 | Nothing else is accepted: every packet whose header parses is laid out in such parts |
| `Packetizer.FindStartCode` | src/media/rtp.c:702-728 | Finds the first position from which a start code begins, or the end |
| `Packetizer.PiecesPartition` | src/media/rtp.c:702-840 | Cutting a frame at its start codes gives pieces whose units contain no start code, each piece ending where the next start code begins |
| `Packetizer.PartitionFlattens` | src/media/rtp.c:702-840 | Start codes and units laid end to end are the frame: nothing is lost, doubled or moved |
| `Packetizer.FrameCut` | src/media/rtp.c:808-843 | A frame that begins with 00 00 01 or 00 00 00 01 is cut at every such code; any other frame is one unit |
| `Packetizer.PacketizeUnit` | src/media/rtp.c:730-785 | The nested loop sends the unit whole, or as its fragments in order |
| `Packetizer.Fragment` | src/media/rtp.c:749-784 | The fragment loop sends the fragments that a front-to-back cut into pieces of max - 2 gives |
| `Packetizer.FragmentsShape` | src/media/rtp.c:749-784 | Number of fragments, their sizes, start and end flags, the marker, and that their bodies join to the original body |
| `Packetizer.OversizedUnit` | src/media/rtp.c:730-785 | A unit longer than max becomes ceil((n-1)/(max-2)) fragments of at most max bytes, start only on the first, end only on the last, never both on one |
| `Packetizer.PacketizeAnnexB` | src/media/rtp.c:807-843 | The outer loop sends every unit of the partition in order, the marker on the last payload of a unit that ends the frame |
| `Packetizer.PacketizeChunks` | src/media/rtp.c:848-860 | Other codecs are cut into chunks of at most the maximum, the marker on the last |
| `Packetizer.PacketizeFrame` | src/media/rtp.c:787-861 | Chooses between units and chunks as the codec and the first bytes demand |
| `MediaSender.FrameFits` | src/peer_connection.c:769-846 | Every payload of a frame leaves room for header and tag in the packet buffer of the sender |
| `MediaSender.PayloadsFit` | src/media/rtp.c:787-861 | Refused exactly below an MTU of 20; else no payload is empty or longer than the MTU less 12, and there is one unless there is nothing to send |
| `Octets.XorBit` | src/media/srtp.c:202-204 | Exclusive or, as the model computes it, sets bit k exactly when the two bits k differ |
| `Octets.ValueCons` | src/signaling/signaling.c:600-640 | Numbers of several bytes are read with the first byte counting most |
| `Srtp.ConstantTimeCompare` | src/media/srtp.c:32-42 | Zero if and only if the first n bytes agree, although it never stops early |
| `Srtp.CountersDistinct` | src/media/srtp.c:184-214 | Two blocks of one packet never use the same counter |
| `Srtp.KeyStreamRepeats` | src/media/srtp.c:161-214 | Two packets of one length and source under the same keys are combined with the same key stream: the exclusive or of what is sent is that of what was to be sent |
| `Srtp.CounterSteps` | src/media/srtp.c:206-213 | One more block is one more in the low eight bytes read as a big-endian number modulo 2^64; the other eight stay |
| `Srtp.SuccessorValue` | src/media/srtp.c:206-213 | Carrying byte by byte adds one to the number, or wraps to zero |
| `Srtp.SuccessorCarry` | src/media/srtp.c:206-213 | The loop that stops where no carry is left has computed the successor |
| `Srtp.IncrementCounter` | src/media/srtp.c:206-213 | In place, the counter block becomes the next one |
| `Srtp.CryptPayload` | src/media/srtp.c:184-214 | In place, the payload is combined with the key stream of the counter blocks; header and everything behind stay |
| `Srtp.CryptCancels` | src/media/srtp.c:184-214 | The key stream undoes itself, for any block function |
| `Srtp.ProtectedBytes` | src/media/srtp.c:44-228 | Byte by byte: the header is clear, payload byte i is combined with byte i % 16 of a counter block encrypted under the session key, both blocks spelled out from salt and source, and the tag is the first ten bytes of the hash |
| `Srtp.BlocksExist` | src/media/srtp.c:44-70 | Such blocks exist for every salt, source and position, so every byte is determined |
| `Srtp.UnprotectedOfProtected` | src/media/srtp.c:146-305 | Decryption undoes encryption for every packet of at least twelve bytes, any block function and any hash |
| `Srtp.ProtectedOfUnprotected` | src/media/srtp.c:230-305 | Decryption accepts only what encryption under the same keys makes |
| `Srtp.Context.Encrypt` | src/media/srtp.c:146-228 | Protects in place and appends the tag, or changes nothing when there is no room |
| `Srtp.Context.Decrypt` | src/media/srtp.c:230-305 | Restores the plain packet in place exactly when length and tag are right, and changes nothing otherwise |
| `JitterBuffer.Buffer.FindPosition` | src/media/rtp.c:589-597 | The first place whose number comes later in serial order |
| `JitterBuffer.InsertPositionUnique` | src/media/rtp.c:589-597 | That place is the only one with no later number before it and a later number at it |
| `JitterBuffer.Buffer.DropFirst` | src/media/rtp.c:557-571 | All four arrays move down together: the list loses its head |
| `JitterBuffer.Buffer.ShiftUp` | src/media/rtp.c:599-605 | All four arrays move up together from a position on |
| `JitterBuffer.Buffer.InsertAt` | src/media/rtp.c:599-612 | The four arrays together get one entry at the position, and the rest of the list stays |
| `JitterBuffer.Buffer.AddPacket` | src/media/rtp.c:548-621 | The arrays refine a list: drop the head when full, then stable insertion in serial order |
| `JitterBuffer.Buffer.GetPacket` | src/media/rtp.c:623-678 | The arrays refine a list: the head comes out when its time and the playout clock allow, and nothing changes otherwise |
| `JitterRuns.Conservation` | src/media/rtp.c:548-678 | Over every run the accepted packets are exactly the returned, the evicted and the held ones, and the count never exceeds the capacity |
| `JitterRuns.BeforeIsLess` | src/media/rtp.c:591-593 | Within half a window the wrapping comparison is the order of the unwrapped numbers (section 3.2 of RFC 1982) |
| `JitterRuns.InsertSorted` | src/media/rtp.c:589-612 | The insertion point found by wrapping comparison keeps the unwrapped numbers sorted, and is stable |
| `JitterRuns.RunOrdered` | src/media/rtp.c:548-678 | Every run within half a window keeps the buffer sorted and above everything returned |
| `JitterRuns.PlayoutOrder` | src/media/rtp.c:548-678 | Every run within half a window returns packets whose numbers never go down, also from 65535 to 0 |
| `JitterRuns.PlayoutPaced` | src/media/rtp.c:623-678 | With clocks that never go back, returned packets are at least min(min_delay, max_delay) apart |
| `JitterRuns.PlayoutExactly` | src/media/rtp.c:623-678 | Exactly when a playout returns a packet, over every run: one is held, the first fits, and the delay set by the last start or playout has passed; it is then the first held |
| `JitterRuns.InitialDelay` | src/media/rtp.c:614-617 | After an arrival that finds the buffer empty nothing is returned before the whole minimal delay |
| `JitterRuns.ArrivalExactly` | src/media/rtp.c:548-621 | What an arrival does, over every run: a full buffer gives up its first packet even for one that is refused, and an accepted one goes behind all that are not later |
| `Depacketizer.DepacketizeUnit` | src/media/rtp.c:893-949 | What of an H.264 payload goes to the frame buffer, which keeps everything behind it, and whether it completes a frame |
| `Depacketizer.DepacketizeFrame` | src/media/rtp.c:863-961 | The same for a whole packet of any codec; the frame buffer is unchanged from the reported length on |
| `Depacketizer.ShareExactly` | src/media/rtp.c:893-960 | What each kind of payload gives, bit by bit, and when it completes a frame |
| `Depacketizer.ShareOfLaid` | src/media/rtp.c:863-961 | It depends on payload and marker only, wherever the header ends |
| `Depacketizer.AbsorbKeepsOneFrame` | src/peer_connection.c:997-1050 | One more share keeps the reassembly buffer on one timestamp, and active exactly when it holds bytes |
| `Depacketizer.NeverMixed` | src/peer_connection.c:997-1050 | For any shares in any order, the reassembly buffer never holds bytes of two timestamps and is active only when not empty |
| `Depacketizer.DeliveredTimestamp` | src/peer_connection.c:997-1050 | Exactly when a delivered frame consists of bytes of the timestamp it is delivered under |
| `Depacketizer.OtherTimestampDelivered` | src/peer_connection.c:997-1050 | Bytes of timestamp 1 and then an empty completing share of timestamp 2: the condition fails and the bytes are delivered under 2 |
| `MediaReceiver.Doubled` | src/peer_connection.c:58-62 | Doubling ends, at a power-of-two multiple of the start, at or above what is needed, and below twice that unless the start was enough |
| `MediaReceiver.Track.ResetReassembly` | src/peer_connection.c:33-42 | Empties the reassembly buffer and nothing else |
| `MediaReceiver.Track.AppendReassembly` | src/peer_connection.c:44-75 | Appends after the bytes that are there, growing when needed; capacity always covers the length |
| `MediaReceiver.Track.Realloc` | src/peer_connection.c:64-72 | The larger buffer holds the earlier bytes |
| `MediaReceiver.Track.AbsorbShare` | src/peer_connection.c:997-1050 | A share drops a frame of another timestamp, is appended, and releases the frame when it completes it |
| `MediaReceiver.Track.ReceivePacket` | src/peer_connection.c:979-1050 | Jitter buffer, depacketizer and reassembly together do what the step on values does |
| `MediaReceiver.Receiver.FindTrackIndex` | src/peer_connection.c:960-977 | The first track with the payload type |
| `MediaReceiver.Receiver.Open` | src/peer_connection.c:944-951 | The protection is removed in place, or the packet refused |
| `MediaReceiver.Receiver.ProcessIncomingRtp` | src/peer_connection.c:936-1053 | One received packet does what the receiving step on values does, and touches no other track |
| `MediaSender.Sender.SendPayload` | src/peer_connection.c:769-846 | One payload leaves as one protected packet with the next sequence number |
| `MediaSender.Sender.SendFrame` | src/peer_connection.c:890-934 | A frame leaves as the protected packets of its payloads with consecutive sequence numbers, and the next number is the one behind the last |
| `MediaPath.SealOpens` | src/media/srtp.c:146-305 | What a protected or clear sender sends, the receiver with the same keys opens |
| `MediaPath.ClearPacketParses` | src/peer_connection.c:769-800 | The packet that was built parses to its header and payload |
| `MediaPath.ReceiveUnits` | src/peer_connection.c:936-1053 | A run of sealed packets does to the track what their payloads do to its reassembly buffer, and nothing to other tracks |
| `MediaPath.ReceiveChunks` | src/peer_connection.c:936-1053 | For other codecs each complete chunk is delivered at once |
| `MediaPath.ReassemblyNeverMixes` | src/peer_connection.c:936-1053 | Whatever packets arrive, the reassembly buffer of an H.264 track holds bytes of one timestamp only |
| `MediaPath.StatusExactly` | src/peer_connection.c:936-982 | Exactly which packets are answered with success, with not found and with an error; without success nothing changes |
| `MediaPath.AccountsExactly` | src/peer_connection.c:960-1018 | Over any packets: a track has counted the packets for it and the frames delivered for it, and its jitter buffer was given just those packets without protection |
| `MediaPath.PacketBytes` | src/peer_connection.c:769-846 | The k-th packet of a frame byte by byte: clear header with flags, number, timestamp and source 0, and the k-th payload |
| `MediaRoundTrip.AbsorbFragments` | src/media/rtp.c:913-945 | The fragments of a unit put it back together behind a start code, and the last one completes a frame |
| `MediaRoundTrip.AbsorbPieces` | src/media/rtp.c:863-961 | Payloads of any number of units leave the buffer and the deliveries that the grouping of the units prescribes |
| `MediaRoundTrip.FramesHoldContent` | src/media/rtp.c:787-961 | The grouping loses nothing: deliveries and what is held join to all units behind start codes |
| `MediaRoundTrip.FramesComplete` | src/media/rtp.c:787-961 | If the last unit is not empty nothing is held back, and there is one delivery more than early fragmented units |
| `MediaRoundTrip.LeftOver` | src/media/rtp.c:819-839 | Exactly when something is held back at the end of a frame |
| `MediaRoundTrip.H264Delivery` | src/peer_connection.c:769-1053 | Sending a frame and receiving its packets in order delivers exactly the grouped units |
| `MediaRoundTrip.H264RoundTrip` | src/peer_connection.c:769-1053 | Split, fragment, head, encrypt, decrypt, parse, depacketize, reassemble: the deliveries join to every non-empty unit behind 00 00 00 01, in one delivery when no unit but the last is fragmented |
| `MediaRoundTrip.CarriableExactly` | src/media/rtp.c:893-949 | Everything sent is delivered or held if and only if every unit that fits one packet has a type from 1 to 23 |
| `MediaRoundTrip.AggregateLost` | src/media/rtp.c:893-949 | The frame of the one byte 0x78, a unit of type 24, is lost without a trace |
| `MediaRoundTrip.ChunkedRoundTrip` | src/peer_connection.c:769-1053 | A frame of another codec arrives if and only if it is not empty and fits one packet |
| `MediaRoundTrip.LongFrameLost` | src/peer_connection.c:769-1053 | A PCMU frame of 1479 bytes, one more than a packet holds, does not arrive |
| `MediaStream.SendAll` | src/peer_connection.c:890-934 | Frames sent one after another leave as packets numbered without a break |
| `MediaStream.StreamRoundTrip` | src/peer_connection.c:769-1053 | Any sequence of H.264 frames sent with running numbers and received in order: the deliveries of every frame come in its turn and under its timestamp, other tracks are untouched, and nothing is held at the end |
| `MediaStream.StreamContent` | src/peer_connection.c:769-1053 | Laid end to end, those deliveries are all non-empty units of all frames behind 00 00 00 01 |
| `MediaRoundTrip.AbsorbBound` | src/peer_connection.c:997-1050 | The receiver never delivers more bytes than the payloads carry |
| `CongestionControl.Controller.ReportFeedback` | src/cc/congestion_control.c:152-218 | Updates target and estimate as the loss or no-loss rule says, then clamps |
| `CongestionControl.Controller.ReportCongestion` | src/cc/congestion_control.c:279-300 | Halves the target down to the minimum and smooths the estimate |
| `CongestionControl.Controller.CanSend` | src/cc/congestion_control.c:220-259 | Grants and moves the pacing clock, or refuses and leaves it |
| `CongestionRuns.AlwaysInBounds` | src/cc/congestion_control.c:152-218 | Over every run of reports target and estimate stay within [min, max] |
| `CongestionRuns.KLosses` | src/cc/congestion_control.c:279-300 | k losses from target t leave max(min, floor(t / 2^k)) |
| `CongestionRuns.ExcessShrinks` | src/cc/congestion_control.c:172-300 | At the minimum target a loss leaves 85 of 100 parts, rounded down, of what the estimate has above it |
| `CongestionRuns.EstimateFalls` | src/cc/congestion_control.c:172-300 | At the minimum target, 5k losses divide what the estimate has above it by at least 2^k |
| `CongestionRuns.LossRun` | src/cc/congestion_control.c:172-300 | 192 losses in a row end with target = estimate = min, for all usable limits and from any rates within them |
| `CongestionRuns.RaisedExactly` | src/cc/congestion_control.c:184-217 | A report without loss raises a target below the maximum if and only if the round trip is at most 10^7 ms |
| `CongestionRuns.TargetRises` | src/cc/congestion_control.c:184-217 | Reports without loss raise the target by the sum of their increases, up to the maximum |
| `CongestionRuns.EstimateRises` | src/cc/congestion_control.c:184-217 | At the maximum target, 5k reports without loss divide by at least 2^k what the estimate is more than 6 too low, and an estimate at least 6 too low stays so |
| `CongestionRuns.NoLossRun` | src/cc/congestion_control.c:184-217 | Reports without loss whose increases cover the way to max, and 160 more, end with target = max and the estimate within 6 of it, exactly 6 below when it came from there |
| `CongestionRuns.PacingRate` | src/cc/congestion_control.c:220-259 | At a constant target, grants 2 to n satisfy 8000 * bytes < target * (elapsed + n - 2), over every interleaving of grants and refusals |
| `CongestionRuns.GrantedExactly` | src/cc/congestion_control.c:220-277 | Exactly which requests are granted over every run: the first, the second from the time of the first, and later ones once the packet granted before has had its time at the target rate |
| `CongestionRuns.LossThreshold` | src/cc/congestion_control.c:174-180 | A report counts as a loss from 6 of 256 on |
| `CongestionRuns.IncreaseIs` | src/cc/congestion_control.c:184-192 | 100000 for an unknown round trip, else ten million over it, rounded down |
| `CongestionRuns.RaiseWraps` | src/cc/congestion_control.c:184-217 | Whatever the limits: a report without loss adds the increase modulo 2^32, and the limits come after |
| `CongestionRuns.SmoothedIs` | src/cc/congestion_control.c:172-217 | After every report the estimate is 85 parts of itself and 15 of the new target, rounded down |
| `CongestionRuns.BroughtInBounds` | src/cc/congestion_control.c:206-217 | One report brings any target between the limits |
| `Crc32.Compute` | src/ice/stun.c:76-89 | The branch-free word loop computes the register of the definition byte by byte |
| `Crc32.GeneratorBits` | src/ice/stun.c:84 | The constant is the generator polynomial of IEEE 802.3 in reflected order |
| `Crc32.ShiftDivides` | src/ice/stun.c:82-85 | One turn of the inner loop is one step of long division over GF(2) |
| `Crc32.ByteDivides` | src/ice/stun.c:81 | Adding a byte to the register stands for reading its eight bits |
| `Crc32.RegisterDivides` | src/ice/stun.c:80-86 | The register after any data divides the same as the data read bit by bit |
| `Crc32.ChecksumIsDivision` | src/ice/stun.c:76-89 | For every byte string the result is the remainder of polynomial division, with first word and result inverted |
| `Crc32.ChecksumAffine` | src/ice/stun.c:76-89 | crc(a) xor crc(b) = crc(a xor b) xor crc(zeros) for strings of one length |
| `Stun.AttributesOfEncoded` | src/ice/stun.c:221-289 | Reading any number of well-formed padded attributes visits exactly those, whatever surrounds them |
| `Stun.AttributesBefore` | src/ice/stun.c:221-289 | Reading stops at the first attribute that does not fit, after visiting exactly the well-formed ones before it |
| `Stun.EncodedBytes` | src/ice/stun.c:307-318 | Type and length in two bytes each, the value, and padding |
| `Stun.EncodeAllAppends` | src/ice/stun.c:221-289 | Encodings join as the attribute lists do |
| `Stun.Walk` | src/ice/stun.c:221-289 | The loop ends and has noticed exactly the attributes that a reader visits |
| `Stun.NoticeAt` | src/ice/stun.c:239-286 | One attribute, read from its bytes, changes what was found as its type, length and family say |
| `Stun.LastOneWins` | src/ice/stun.c:239-286 | The address is that of the last IPv4 attribute, the port that of the last address attribute of any kind |
| `Stun.MaskTwice` | src/ice/stun.c:245-252 | Exclusive or with the cookie undoes itself for port and address |
| `Stun.MaskedBytes` | src/ice/stun.c:245-252 | Byte by byte, the port is combined with 21 12 and the address with 21 12 A4 42 |
| `Stun.AddressBytes` | src/ice/stun.c:239-286 | Which attributes hold a port or an address, and both read from their bytes |
| `Stun.ProcessResponse` | src/ice/stun.c:188-298 | The outcome of reading a response in a buffer |
| `Stun.ProcessedExactly` | src/ice/stun.c:188-298 | Exactly which buffers are accepted, and which address and port are reported |
| `Stun.Finalize` | src/ice/stun.c:300-353 | In place, the message becomes the stamped message and the rest of the buffer stays, or nothing changes when there is no room |
| `StunMessages.FinalizedBytes` | src/ice/stun.c:300-353 | Finalising byte by byte: the length field, a hash of the message with the length it has then and a blank digest, and a checksum of all before it combined with 0x5354554E |
| `StunMessages.FinalizedAttributes` | src/ice/stun.c:300-353 | A finalised message encodes the attributes it had and then two more |
| `StunMessages.ResponseRead` | src/ice/stun.c:188-298 | For attributes whose addresses are all IPv4, the reader reports the last one, or an error if there is none |
| `StunMessages.XorMappedRecovers` | src/ice/stun.c:382-396 | The attribute that the builder makes reads back as the address it was made from |
| `StunMessages.CreateResponse` | src/ice/stun.c:355-406 | The buffer holds the finalised response and zeros, or 0 is returned when it does not fit |
| `StunMessages.ResponseBytes` | src/ice/stun.c:355-406 | The response byte by byte, up to its finalising |
| `StunMessages.ServerAnswerRead` | src/ice/stun.c:188-298 | The bytes of a server answer, whatever attributes come before the address and whatever lies behind: its address and port are reported |
| `StunMessages.CreateRequest` | src/ice/ice.c:515-600 | The ping is built piece by piece in a blank buffer and finalised |
| `StunMessages.RequestBytes` | src/ice/ice.c:515-600 | The ping byte by byte: names, role and tie breaker, priority |
| `StunMessages.RequestRead` | src/ice/ice.c:515-600 | A reader finds those three attributes, the request type and the id in it |
| `StunMessages.ResponseRecovered` | src/ice/stun.c:188-406 | Reading a built response recovers the address, the port and the transaction id, whatever lies behind it |
| `Ice.Session.constructor` | src/ice/ice.c:165-186 | A new session is empty and in phase 0 |
| `Ice.Session.AddLocalCandidate` | src/ice/ice.c:114-141 | Adds a candidate unless the list is full or has that address and port |
| `Ice.Session.StartGathering` | src/ice/ice.c:202-313 | Ends in phase 2 with the host candidates of the interfaces, or the loopback address |
| `Ice.Session.AddRemoteCandidate` | src/ice/ice.c:315-351 | Adds a UDP candidate and its pairs; others are skipped, and a full list is an error |
| `Ice.Session.AddPairsForLocal` | src/ice/ice.c:143-159 | Adds the pairs of one local candidate with all remote ones, as capacity allows |
| `Ice.Session.MarkFrom` | src/ice/ice.c:392-400 | A request marks exactly the pairs with its sender |
| `Ice.Session.MarkAnswered` | src/ice/ice.c:417-427 | A response marks exactly the first pair that waits for its id |
| `Ice.Session.ProcessPacket` | src/ice/ice.c:353-477 | One packet is one step on values, and a request is answered with the response for its id and sender |
| `Ice.Session.PingDue` | src/ice/ice.c:498-621 | Pings exactly the pairs that are due, each once and in order, with the message for its clock reading and priority |
| `Ice.Session.SelectPair` | src/ice/ice.c:623-635 | Selects the first succeeded pair if none is selected |
| `Ice.Session.CheckConnectivity` | src/ice/ice.c:479-636 | One tick is one step on values, and sends the messages of exactly the pairs that are due |
| `IceRuns.PairsForRemoteAdded` | src/ice/ice.c:336-345 | A new remote candidate is paired once with every local one, with fresh pairs, and no other pair changes |
| `IceRuns.PairsForLocalAdded` | src/ice/ice.c:143-159 | A new local candidate is paired once with every remote one, with fresh pairs, and no other pair changes |
| `IceRuns.CapacityCuts` | src/ice/ice.c:143-159 | New pairs stop at the 1024 that the check list holds |
| `IceRuns.StepKeeps` | src/ice/ice.c:315-636 | Every step keeps the product, the link between phase, selection and flag, and all earlier candidates and links |
| `IceRuns.AlwaysProduct` | src/ice/ice.c:315-636 | In every reachable state after gathering the check list holds every local-remote pair exactly once, so its capacity never cuts it short |
| `IceRuns.RunGrows` | src/ice/ice.c:315-636 | Along a run candidates, links, success and selection are only added to |
| `IceRuns.SelectionStable` | src/ice/ice.c:479-644 | A selected pair stays selected and succeeded and joins the same candidates; the phase never goes back |
| `IceRuns.LowestSelected` | src/ice/ice.c:623-635 | Only a tick selects, and it takes the succeeded pair of lowest index |
| `IceRuns.StepConfirms` | src/ice/ice.c:392-427 | In one step a pair becomes succeeded exactly by a request whose source has the port and, in dotted decimals, the address of its remote candidate, or by being the first that waits for the id of a response |
| `IceRuns.OneRemoteConfirmed` | src/ice/ice.c:392-400 | One request never confirms two pairs whose remote candidates differ in address text or port |
| `IceRuns.SpellsOne` | src/ice/ice.c:385-395 | No text spells two addresses in dotted decimals |
| `IceRuns.SucceededExactly` | src/ice/ice.c:392-427 | A pair has succeeded exactly when some event of the run confirmed it: a request from the address and port of its remote candidate, or a response with its then latest id, no earlier pair waiting for that id |
| `IceRuns.NextTickConnects` | src/ice/ice.c:623-644 | One succeeded pair is enough for the next tick to connect |
| `IceRuns.PingsSpaced` | src/ice/ice.c:500-505 | Two pings of one pair at non-zero times of a clock that does not run back are more than 3000 ms apart |
| `IceRuns.StepPings` | src/ice/ice.c:498-541 | In one step a pair gets a new time and id exactly when it is pinged, the id made from the clock as the code makes it |
| `IceRuns.PingedAgain` | src/ice/ice.c:500-505 | Exactly when a pair is pinged again: it has not succeeded and the last ping is more than 3000 ms old |
| `IceRuns.GatheredHosts` | src/ice/ice.c:251-280 | With a socket there is always a host candidate, none twice, and one for every address while there is room |
| `IceRuns.GatheredExactly` | src/ice/ice.c:202-313 | Field by field, the candidates that gathering leaves: the given addresses in dotted decimals, or the loopback address, with the priorities of the macro |
| `IceRuns.LearnExactly` | src/ice/ice.c:315-351 | Field by field, what learning a candidate adds, and when it is skipped |
| `IceRuns.IdsExactly` | src/ice/ice.c:523-539 | Two pings have one transaction id exactly when the clock showed one time |
| `IceRuns.AnswerReceived` | src/ice/ice.c:407-474 | The built answer to a ping makes its pair succeed, and also adds the address the peer saw as a server-reflexive candidate |
| `IceRuns.ServerAnswered` | src/ice/ice.c:411-474 | The answer of the server changes no pair and adds the mapped address with fresh pairs |
| `IceExchange.PingIsRequest` | src/ice/ice.c:515-600 | A ping that arrives is a request with the id its sender waits for |
| `IceExchange.BothConnect` | src/ice/ice.c:353-644 | Two agents: one ping and its answer make the pinged pair succeed on one side and the pairs with the address it came from on the other, and after a later tick both are connected |
| `Text.TokenKeptExactly` | src/signal/sdp_parser.c:26-67 | A field that a space ends is copied whole exactly when it is not blank at the front and has no space or line end |
| `Text.FieldKeptExactly` | src/signal/sdp_parser.c:26-67 | A field that the line end ends is copied whole exactly when it has no blank in front, no space behind and no line end |
| `Text.CopyExactly` | src/signal/sdp_parser.c:48-67 | For every text: blanks in front are skipped, what does not fit is passed over, and the cursor stops at the separator |
| `Text.TrimExactly` | src/signal/sdp_parser.c:48-67 | Trimming drops all spaces at the end and nothing else |
| `Text.FieldRead` | src/signal/sdp_parser.c:48-67 | Such a field is read back after any blanks, and the cursor stops behind it |
| `Text.Stored` | src/signal/sdp_parser.c:48-67 | Whatever is copied has no separator and no blanks around it |
| `Text.IntRead` | src/signal/sdp_parser.c:72-81 | A printed int is scanned back and the scan stops behind it |
| `Text.NumberRead` | src/signal/sdp_parser.c:86-95 | A printed unsigned number is scanned back, after any blanks |
| `Text.ScanExactly` | src/signal/sdp_parser.c:72-95 | White space, a sign or none, digits: exactly what is scanned of any text, and where it stops |
| `Text.AmountCons` | src/signal/sdp_parser.c:72-95 | The first digit counts most |
| `Text.Conversions` | src/signal/sdp_parser.c:72-95 | Signed and unsigned numbers saturate, and a minus sign counts an unsigned one from 2^64 down |
| `Text.IntWraps` | src/signal/sdp_parser.c:72-81 | An int keeps the low 32 bits |
| `Text.DecimalLength` | src/signal/sdp_generator.c:51-69 | A number below 10^n has at most n digits |
| `SdpGenerator.AlwaysFits` | src/signal/sdp_generator.c:43-52 | The text of every session that the structure can hold is shorter than the 8192-byte buffer |
| `SdpGenerator.Append` | src/signal/sdp_generator.c:26-32 | Formatting at an offset stores what there is room for and a terminator, leaves everything else, and counts the whole text |
| `SdpGenerator.AppendGroupLine` | src/signal/sdp_generator.c:89-107 | The one line that is printed in pieces is the group line |
| `SdpGenerator.AppendMedia` | src/signal/sdp_generator.c:111-155 | The lines of one media description, in order |
| `SdpGenerator.AppendCandidates` | src/signal/sdp_generator.c:157-164 | The candidate lines, in order |
| `SdpGenerator.Generate` | src/signal/sdp_generator.c:38-173 | Nothing is truncated: the buffer holds the whole text and a terminator, for every session that the structure can hold |
| `SdpView.GeneratedSeen` | src/signal/sdp_generator.c:38-173 | What a peer reads in the text, line by line, of any session without line ends in its fields: trickling, the group, and for every media its heading, its direction and the shared port, though the parser here ignores these lines |
| `SdpView.GroupWords` | src/signal/sdp_generator.c:89-107 | The group names the identifications in their order |
| `SdpView.CandidateWords` | src/signal/sdp_generator.c:157-164 | The eight words of a candidate line |
| `SdpView.LineEndSeen` | src/signal/sdp_generator.c:157-164 | A line end in a field: what follows it is read as a line, and may change the direction that a peer sees |
| `SdpParser.CopyField` | src/signal/sdp_parser.c:48-67 | The character loop stores and stops as the definition of a copied field says |
| `SdpParser.ReadCandidate` | src/signal/sdp_parser.c:100-164 | A candidate is read field by field, or refused |
| `SdpParser.ReadFingerprint` | src/signal/sdp_parser.c:169-183 | Type and fingerprint, the latter only with a type |
| `SdpParser.Parser.ReadRtpmap` | src/signal/sdp_parser.c:306-366 | The first media with the payload type takes codec, clock and channels |
| `SdpParser.Parser.ReadAttribute` | src/signal/sdp_parser.c:264-369 | An attribute line changes the session and moves the cursor as its name demands |
| `SdpParser.Parser.ReadMedia` | src/signal/sdp_parser.c:371-441 | A media line adds a description with the defaults of its payload type |
| `SdpParser.Parser.ReadOrigin` | src/signal/sdp_parser.c:233-248 | The origin line sets its six fields |
| `SdpParser.Parser.Parse` | src/signal/sdp_parser.c:197-468 | The cursor loop ends, and its outcome is that of the definition on the whole text |
| `SdpRoundTrip.OriginRead` | src/signal/sdp_parser.c:233-248 | A printed origin line is read back, with the defaults of the printer |
| `SdpRoundTrip.OriginWords` | src/signal/sdp_parser.c:233-248 | An origin line of any six words: what is no number leaves what the two variables held |
| `SdpRoundTrip.TimingWords` | src/signal/sdp_parser.c:250-262 | A timing line of any two words: what is no number leaves what the session had |
| `SdpRoundTrip.OtherLine` | src/signal/sdp_parser.c:441-455 | A line of another kind is passed over |
| `SdpRoundTrip.PlainLine` | src/signal/sdp_parser.c:205-225 | A line whose second character is no equals sign is passed over |
| `SdpRoundTrip.FingerprintRead` | src/signal/sdp_parser.c:275-280 | A printed fingerprint line is read back |
| `SdpRoundTrip.FingerprintMisread` | src/signal/sdp_parser.c:169-183 | A fingerprint printed without a type is read back with some type |
| `SdpRoundTrip.RtpmapRead` | src/signal/sdp_parser.c:306-366 | A printed rtpmap line gives codec, clock rate and channels to the first media with its payload type |
| `SdpRoundTrip.BlockRead` | src/signal/sdp_parser.c:294-441 | The lines of a media description add that description, its identification without the spaces at its end |
| `SdpRoundTrip.CandidateRead` | src/signal/sdp_parser.c:100-164 | A printed candidate line is read back as the candidate |
| `SdpRoundTrip.CandidateExactly` | src/signal/sdp_parser.c:100-164 | Exactly which candidate lines of eight words are accepted, and what is kept of them |
| `SdpImage.OutcomeReadable` | src/signal/sdp_parser.c:197-468 | Whatever the text, a parsed session stays within its arrays, and its fields are such as can be printed and read back, but for spaces at the end of an identification and a fingerprint without a type |
| `SdpImage.NeverBeyond` | src/signal/sdp_parser.c:197-232 | The cursor stays within every text whose last character ends a line; a single letter makes it leave |
| `SdpImage.NoRoom` | src/signal/sdp_parser.c:264-441 | A third media line, a 33rd candidate and an identification without a media are passed over |
| `SdpImage.CodecByName` | src/signal/sdp_parser.c:340-364 | A codec is recognised by its name in any case of letters, and by nothing else |
| `SdpImage.PayloadTypes` | src/signal/sdp_parser.c:371-441 | What a media line alone makes of each payload type |
| `SdpExchange.NormalizedTwice` | src/signal/sdp_parser.c:197-468 | A session that was exchanged once is exchanged without any further change |
| `SdpExchange.MediaExactly` | src/signal/sdp_parser.c:340-364 | The media list survives exactly when the payload types tell the media apart and no identification ends in a space |
| `SdpExchange.RoundTrip` | src/signal/sdp_parser.c:197-468 | Parsing the printed text of a session with clean fields gives it back up to the defaults of the printer, exactly when the payload types tell the media apart; it is accepted exactly when the version is zero |
| `SdpExchange.SurvivesExactly` | src/signal/sdp_parser.c:197-468 | For every session that the structure can hold: what is parsed is what was printed, up to the defaults of the printer, if and only if all fields are clean and the payload types tell the media apart |
| `SdpExchange.SharedPayloadTypeLost` | src/signal/sdp_parser.c:340-364 | Two media with one payload type: a session that does not survive |
| `SdpBuilder.Description.AddMedia` | src/signal/sdp_parser.c:480-514 | Adds a media description with the defaults of its codec, or refuses the third |
| `SdpBuilder.Description.AddCandidate` | src/signal/sdp_parser.c:516-536 | Adds a candidate, its fields cut to their arrays, or refuses the 33rd |
| `SdpBuilder.BuiltHeld` | src/signal/sdp_parser.c:480-536 | Whatever is added, the session stays within its arrays and so can be printed |
| `SdpBuilder.MediaStable` | src/signal/sdp_parser.c:480-514 | An added track survives the exchange unchanged exactly when its channel count is one that is printed |
| `SdpBuilder.TrackAdded` | src/signal/sdp_parser.c:480-514 | What was asked for is kept, an added track goes both ways over port 9, and a third is refused |
| `SdpBuilder.CandidateAdded` | src/signal/sdp_parser.c:516-536 | Texts are cut to what their arrays hold, everything else is kept, and a 33rd candidate is refused |
| `SdpBuilder.DefaultsAgree` | src/signal/sdp_parser.c:480-514 | The defaults of a codec are those that its default payload type stands for when parsed |
| `SdpBuilder.DefaultTracksSurvive` | src/signal/sdp_parser.c:480-514 | A session with two added tracks of different codecs and default payload types survives the exchange exactly when its other fields and the two identifications are clean |
| `Json.KeptExactly` | src/signaling/signaling.c:1323-1360 | Everything is stored exactly when the escaped text and its terminator fit the buffer |
| `Json.KeptFills` | src/signaling/signaling.c:1323-1360 | What is kept fills the buffer, or it is the front of the text and only characters of two bytes come after |
| `Json.Escape` | src/signaling/signaling.c:1323-1360 | The buffer holds the escaped form of what was kept, and a terminator |
| `Json.UnescapedOfEscaped` | src/signaling/signaling.c:163-186 | Unescaping undoes escaping, for every string |
| `Json.EscapeRead` | src/signaling/signaling.c:163-186 | Six characters have a meaning behind a backslash; before any other the backslash stays |
| `Json.Unescape` | src/signaling/signaling.c:163-186 | The loop computes the unescaped string |
| `Json.EscapedQuotes` | src/signaling/signaling.c:146-155 | In an escaped string no quote looks like a closing one |
| `Json.QuotedEscaped` | src/signaling/signaling.c:141-188 | A quoted escaped string is read back exactly when it does not end in a backslash, which hides the closing quote |
| `Json.ReadQuoted` | src/signaling/signaling.c:141-188 | Finds the closing quote and unescapes what is before it |
| `Json.ProcessMessage` | src/signaling/signaling.c:891-1043 | The event that a message is reported as |
| `Json.DescriptionExactly` | src/signaling/signaling.c:1362-1426 | The message of an offer or answer gives the description back exactly when its escaped form fits 4096 bytes and it does not end in a backslash |
| `Json.KindsExactly` | src/signaling/signaling.c:891-1043 | Exactly how a message of any type is reported, or that it is not |
| `Json.StringForm` | src/signaling/signaling.c:191-219 | A description that the message holds as a string is read back exactly when it does not end in a backslash |
| `Json.TrailingBackslashLost` | src/signaling/signaling.c:146-155 | A single backslash is a description that is lost |
| `WebSocket.MaskedTwice` | src/signaling/signaling.c:691-696 | Masking undoes itself |
| `WebSocket.ApplyMask` | src/signaling/signaling.c:833-836 | In place, the payload is masked and nothing else changes |
| `WebSocket.BuildHeader` | src/signaling/signaling.c:789-820 | The header of all three length encodings, and the mask |
| `WebSocket.BuildFrame` | src/signaling/signaling.c:783-836 | The frame in the send buffer, or none if it is longer than the buffer |
| `WebSocket.FrameRead` | src/signaling/signaling.c:569-696 | Reading any frame with a payload that fits the buffer recovers final flag, opcode and payload, masked or not, and stops behind it |
| `WebSocket.SentRead` | src/signaling/signaling.c:783-867 | Reading any frame that the client can send recovers its opcode and payload |
| `WebSocket.FrameBytes` | src/signaling/signaling.c:783-836 | A frame byte by byte, in all three length encodings |
| `WebSocket.TruncatedStarves` | src/signaling/signaling.c:569-690 | A frame of which any part is missing is not read |
| `WebSocket.OversizedRefused` | src/signaling/signaling.c:640-661 | A frame that announces more than 8192 bytes is refused |
| `WebSocket.SendLimit` | src/signaling/signaling.c:783-820 | Exactly what can be sent: 8184 bytes |
| `Signaling.Client.TakePrefix` | src/signaling/signaling.c:569-661 | The header loops read what the definition of a frame says |
| `Signaling.Client.Handle` | src/signaling/signaling.c:698-780 | What each opcode does to the fragment buffer, the deliveries, the connection and the replies |
| `Signaling.Client.AppendFragment` | src/signaling/signaling.c:715-724 | A fragment goes behind those before it, or is refused when they would exceed the buffer |
| `Signaling.Client.ReadFrame` | src/signaling/signaling.c:569-781 | Reading one frame is one step on values, and leaves the receive buffer empty when it succeeds |
| `Signaling.Client.Deliver` | src/signaling/signaling.c:891-1043 | A message is processed once and its event reported |
| `Signaling.EventsJoin` | src/signaling/signaling.c:891-1043 | Each message is reported once or not at all, in order |
| `Signaling.Client.SendFrame` | src/signaling/signaling.c:783-867 | A frame is written if connected and not too long |
| `Signaling.Client.Process` | src/signaling/signaling.c:1465-1488 | One call handles at most one frame, and always reports zero |
| `Signaling.Client.SendDescription` | src/signaling/signaling.c:1362-1426 | A description is written as one text frame whenever connected; the message always fits |
| `Signaling.MessageFits` | src/signaling/signaling.c:1373-1388 | The message fits text buffer and frame, whatever was left out of the escaped description |
| `SignalingRuns.FragmentsDelivered` | src/signaling/signaling.c:698-780 | However a message is split, and whatever pings and pongs come between, its parts are delivered joined, once, with every ping answered whose answer fits the send buffer and nothing left behind, exactly when they fit 8192 bytes; otherwise the connection closes |
| `SignalingRuns.FramesExactly` | src/signaling/signaling.c:698-780 | Any frames in any order: the connection stays open exactly while there is no close frame, no continuation of nothing and no message over 8192 bytes; then the finished messages are delivered, the unfinished one is kept and the pings are answered |
| `SignalingRuns.CloseEnds` | src/signaling/signaling.c:757-763 | A close frame behind acceptable frames ends the connection, and nothing behind it has any effect |
| `SignalingRuns.OddStreams` | src/signaling/signaling.c:1465-1488 | One call on a stream without a whole frame loses it, on a frame that is too long closes, and when closed does nothing |
| `SignalingRuns.StreamProcessed` | src/signaling/signaling.c:1465-1488 | Processing the stream of those frames call by call does the same and stops behind them |
| `SignalingRuns.AnnouncementReadable` | src/signaling/signaling.c:1362-1426 | What a sender writes for a description can be read as one whole text frame |
| `SignalingRuns.DescriptionCarried` | src/signaling/signaling.c:891-1043 | From sender to receiver over a relay, the callback gets the description exactly when it fits and does not end in a backslash |
| `SignalingRuns.SessionCarried` | src/signaling/signaling.c:891-1043 | A whole session crosses printer, escape, frames in any fragments, reader and parser, and is understood |

## Left out

- `src/media/dtls.c`: the handshake is a library's. Keys are given and shared; the key derivation of the code
  stands in for that of RFC 3711.
- AES, HMAC, SHA-1 and random numbers: parameters, of which nothing but their sizes is assumed.
- Sockets, `select`, name resolution, interface enumeration, locks, logging and allocation failure.
- Overflow of `size_t` in the doubling loop of the reassembly buffer.
- Rounding of `double` in congestion control: quotients are exact rationals, rounded down where the code casts.
- Ice.Session.StartGathering: the two network failures are one error, and the parts of a STUN URL are not read;
  the parameter says whether and when a server was asked.
- Ice.Session.CheckConnectivity: where a ping is sent to is not modelled, only for which pair.
- Json.ProcessMessage: the candidate inside an ice-candidate message is not extracted.
- Signaling.Client.ReadFrame: a transport error and the end of the stream are not modelled; a stream that ends
  inside a frame loses what was read of it, as in the code, and whole frames are assumed in the results.
- Signaling.Client.SendFrame: a failing write of the transport, and the error state it leads to, are not modelled.
- Signaling.Client.SendDescription: the two error codes are one boolean, and a write does not fail.
- MediaSender.Sender.SendPayload: a payload is sent over a selected pair, and the send does not fail.
- MediaSender.Sender.SendFrame: a frame is sent over a selected pair; the cases without one are not modelled.
- MediaReceiver.Track.AppendReassembly: allocation does not fail.
- MediaReceiver.Track.Realloc: allocation does not fail.
- CongestionControl.Controller.ReportFeedback: quotients are exact where the code rounds doubles, and the latest
  metrics, which only the call that sets them reads, are not kept.
- CongestionControl.Controller.ReportCongestion: quotients are exact where the code rounds doubles.
- CongestionControl.Controller.CanSend: the wait is an exact quotient, rounded down.
- RTCP reports, header extensions beyond their length, and the getters of all components.
- `src/tinyrtc.c` and the state of the peer connection; `src/media_codec.c` apart from its table; the demos, the
  HTTP upgrade and base64.
- Fields of the C structures are strings without terminator here; texts are taken to contain no zero byte.
