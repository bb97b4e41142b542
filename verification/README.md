# Wire protocols and state machines of the projection services

Argo's projection services speak several hand-written protocols: native video and camera feeds between processes on the
host, CarPlay over USB and TLS, and Android Auto. This project models both ends of them, as the code has them, and
proves what the two ends owe each other.

Each `.dfy` file is one component. A component that updates its fields in the source is a class whose methods carry the
source's branches; each method is proved to compute a specification function on the object's old value, and the
properties are lemmas about those functions. Systems with several parties are state machines: a datatype of steps, a
function that applies one, and a fold over a list of them, so that a lemma for all lists of steps is a statement about
every run.

| file | component |
|---|---|
| `Bytes`, `Chunking` | integers and their encodings, cutting and joining byte strings |
| `Nals`, `CodecConfig`, `ConfigRecords` | picture units and decoder configurations as the producer and the consumer check them, and as the standard prints them |
| `MediaWire`, `MediaStream`, `MediaContract`, `MediaRun` | the native video feed ARPM/1: its records, the Rust producer, the C++ validator, and all their runs together |
| `CameraRing` | the shared-memory camera ring ARCR/1: writer and reader as interleaved atomic loads and stores |
| `TouchPipeline` | CarPlay touch input from the host through two bounded queues to the HID report |
| `SessionClock` | the session clock and the error it can have |
| `Iap2Frame`, `Iap2Decoder`, `Csm`, `WiredControl`, `SendWindow`, `Authentication` | iAP2: frames, the buffered frame decoder, control messages, the wired control channel, the send window, the authentication sequence |
| `Tlv`, `ControlCipher`, `Replay` | pairing lists, the encrypted control channel, the audio replay window |
| `UsbMux`, `Ncm` | the local USB multiplexer and USB network blocks |
| `AaWire`, `Proto`, `AaTouch` | Android Auto framing, protobuf fields, touch reports |

`dafny verify dfyconfig.toml` checks everything. Numbers are unbounded unless a width is written out: bytes, 16-, 32-
and 64-bit fields are subset types, and wrap-around is explicit where the source has it. Bit masks are written as the
arithmetic they mean, or as sets of bit positions.

Six properties need a condition that a first reading of the code might not suggest. Each is proved exact, and an input
that breaks it stands beside it.

- A CarPlay touch made before RECORD is discarded: its pointer holds the slot, but the report shows it pressed only from
  the next word about that slot on (`TouchPipeline`).
- The clock loop knows a reply by its echoed timestamp alone. It takes a late answer to an earlier request for the
  current one exactly if that request showed the same timestamp (`SessionClock`).
- The type-length-value encoder accepts lists of more than 16 fields, which the decoder refuses (`Tlv`).
- A multiplexer segment from a nonzero multiple of 2^32 bytes away in the stream is taken for the next one (`UsbMux`).
- The buffered iAP2 decoder refuses a read that does not fit beside the unfinished frame before it, though all frames in
  it are legal (`Iap2Decoder`).
- A varint is read back to its own bytes only if it has one byte or does not end in a zero byte (`Proto`).

## Model

| member | source | states |
|---|---|---|
| `MediaRun.ValidatorAcceptsEveryRun` | native/carplay/src/media.rs:436-624 | in every run of publish, connect, pop, record write, disconnect and stop, the complete records written to a consumer are accepted in order, from the first, by a fresh header parser and validator expecting the same description |
| `MediaRun.NoBrokenChain` | native/carplay/src/media.rs:436-486 | in every run, a delivered picture is preceded by a keyframe delivered to the same consumer, and every picture validly published between the two was delivered, in order and unaltered |
| `MediaRun.ResumesAtFlaggedKeyframe` | native/carplay/src/media.rs:464-478 | in every run, a delivered picture is flagged discontinuity exactly if it is the consumer's first or the picture published before it was not delivered, such a picture is a keyframe, and the queue never exceeds 3 |
| `MediaRun.InvAlways` | native/carplay/src/media.rs:502-591 | the invariant behind the three theorems: queue, picture in flight and delivered pictures are one increasing selection of the publications, broken only at flagged keyframes |
| `MediaRun.PublishIntoIsPublish` | native/carplay/src/media.rs:436-486 | publishing in a run changes the stream exactly as the producer's own publish |
| `MediaRun.TruthfulAlways` | native/carplay/src/media.rs:443-463 | every picture in a run's record was valid for the codec, carried its true keyframe flag, and timestamps never decreased |
| `MediaStream.VideoStream.PublishUnit` | native/carplay/src/media.rs:436-486 | the locked code of publish computes the specified new stream and outcome for every input, refusals included |
| `MediaStream.VideoStream.New` | native/carplay/src/media.rs:406-434 | a stream exists exactly for legal main-plane descriptions with an accepted codec configuration, and starts empty |
| `MediaStream.VideoStream.Pop` | native/carplay/src/media.rs:542-550 | popping takes the oldest unit and leaves the rest in order |
| `MediaStream.VideoStream.DropLease` | native/carplay/src/media.rs:583-591 | dropping the lease empties the queue and asks for a keyframe |
| `MediaContract.Validator.Check` | native/projection/argo-projection-view/src/media_contract.h:226-262 | the consumer's validator takes the specified step on every header and payload and stays failed once it fails |
| `MediaContract.ValidateSnoc` | native/projection/argo-projection-view/src/media_contract.h:226-262 | validating a longer record stream is validating its front and then its last record |
| `MediaWire.DescriptionRoundTrip` | native/carplay/src/media.rs:115-149 | the consumer's parser returns the description the producer encoded, for every legal one |
| `MediaWire.DescriptionOnto` | native/projection/argo-projection-view/src/media_contract.h:53-72 | every description the consumer accepts is one the producer can encode, to the same bytes |
| `MediaWire.HeaderRoundTrip` | native/projection/argo-projection-view/src/media_contract.h:103-119 | the consumer parses every legal record header to the header the producer wrote |
| `Nals.InspectNals` | native/carplay/src/media.rs:217-273 | the producer's walker accepts exactly the well-formed payloads, with length sizes 1, 2 and 4, and reports the keyframe and picture flags of the units it holds |
| `Nals.ConsumerInspectNals` | native/projection/argo-projection-view/src/media_contract.h:145-174 | the consumer's walker accepts exactly the same well-formed payloads |
| `Nals.IsKeyframe` | native/carplay/src/protocol/receiver.rs:913-937 | the receiver's test succeeds exactly on at most 1024 nonempty length-prefixed units and says whether one is an IDR picture |
| `Nals.KeyframeTestAgrees` | native/carplay/src/protocol/receiver.rs:913-937 | whenever the producer's walker accepts a length-prefixed H.264 unit, the keyframe test succeeds with the walker's answer, so the receiver never publishes a wrong flag |
| `Nals.SplitJoin` | native/carplay/src/media.rs:217-273 | splitting returns every list of units that its length field can hold, as printed |
| `Nals.JoinSplit` | native/projection/argo-projection-view/src/media_contract.h:145-174 | and returns nothing that was not printed so |
| `Nals.UntilStartIsFirst` | native/projection/argo-projection-view/src/media_contract.h:121-127 | the scan for an Annex B start code stops at the first one |
| `Nals.ThreeByteLengthsDiffer` | native/projection/argo-projection-view/src/media_contract.h:145-160 | the two walkers differ only on three-byte length fields, which the consumer alone would read |
| `CodecConfig.Configuration` | native/carplay/src/media.rs:312-365 | the producer's reader accepts a configuration exactly when the common specification does, with its length size |
| `CodecConfig.ReadRecord` | native/carplay/src/media.rs:275-365 | the producer's stateful reader accepts exactly the records of the specification |
| `CodecConfig.ParseCodecConfig` | native/projection/argo-projection-view/src/media_contract.h:176-224 | the consumer's moving offset accepts exactly the same records with the same length size |
| `ConfigRecords.PrintedAvcIsAccepted` | native/carplay/src/media.rs:312-342 | every avcC record printed from legal parameter sets is accepted with its length size (ISO/IEC 14496-15:2017 section 5.3.3.1) |
| `ConfigRecords.AcceptedAvcIsPrinted` | native/projection/argo-projection-view/src/media_contract.h:176-208 | and every accepted avcC record is the print of legal parameter sets, extension tail included |
| `ConfigRecords.PrintedHevcIsAccepted` | native/carplay/src/media.rs:343-365 | every hvcC record printed from arrays of typed units that carry VPS, SPS and PPS is accepted (section 8.3.3.1) |
| `ConfigRecords.AcceptedHevcIsPrinted` | native/projection/argo-projection-view/src/media_contract.h:208-224 | and every accepted hvcC record is such a print |
| `CameraRing.NoTornFrame` | native/camera/argo-camera-view/src/contract.h:49-76 | in every interleaving of the writer's and reader's loads and stores, a successful read returns the size, stride, time and every pixel of the one write it is numbered after |
| `CameraRing.OnlyLappingFails` | native/camera/argo-camera-view/src/contract.h:49-76 | a read of an active ring with a fresh time that loaded sequence s fails only when write s+3 has begun |
| `CameraRing.InvAlways` | native/camera/argo-camerad/src/ring.rs:96-135 | the seqlock invariant of slots, guards and sequence in every interleaving |
| `CameraRing.Ring.Write` | native/camera/argo-camerad/src/ring.rs:96-135 | write refuses inadmissible images unchanged and otherwise stores exactly the image in its slot with guard and sequence |
| `CameraRing.StepsAreWrite` | native/camera/argo-camerad/src/ring.rs:96-135 | run alone, the atomic steps have exactly the effect of one write |
| `TouchPipeline.NoStuckTouch` | native/carplay/src/runtime_control.rs:179-245 | in every run whose session has not ended, once both queues are drained a slot is pressed exactly if a host pointer holds it and the latest word about the slot was not a press discarded before RECORD |
| `TouchPipeline.SlotsStayDistinct` | native/carplay/src/runtime_control.rs:208-245 | held slots are always distinct and 0 or 1, and both queues keep their bounds |
| `TouchPipeline.DiscardedTouchIsHeldButNotPressed` | native/carplay/src/protocol/receiver.rs:536-558 | the condition is needed: a run in which a touch before RECORD leaves its slot held and not pressed |
| `TouchPipeline.InvAlways` | native/carplay/src/runtime_control.rs:103-264 | the invariant: what the queues still hold turns the contact bytes into the held pointers |
| `TouchPipeline.Control.ServeRequest` | native/carplay/src/runtime_control.rs:125-286 | a request updates the session, visibility, pointers and queue as specified, full and closed queues included |
| `TouchPipeline.Control.ServeTouch` | native/carplay/src/runtime_control.rs:188-245 | a touch request allocates, moves or releases a slot as specified, and rolls back when its command is refused |
| `TouchPipeline.EditContacts` | native/carplay/src/protocol/receiver.rs:967-988 | the event channel's contact bytes change in place as specified |
| `SessionClock.ClockErrorBound` | native/carplay/src/protocol/receiver.rs:1034-1057 | if the phone runs at host rate and accepted samples have delay at most D, then after the first one the clock error stays within D/2 + 9 ticks, truncating division included |
| `SessionClock.JumpErrorBound` | native/carplay/src/protocol/receiver.rs:1043-1053 | a jump leaves only half the delay, plus half a tick |
| `SessionClock.OffsetError` | native/carplay/src/protocol/receiver.rs:1034-1043 | the measured offset (section 8 of RFC 5905) is the true one up to half the delay |
| `SessionClock.EchoIdentifiesRequest` | native/carplay/src/protocol/receiver.rs:1059-1095 | after any run, every reply that answers a request which showed its echo is accepted as the answer to the outstanding request if and only if no earlier request showed the outstanding timestamp |
| `SessionClock.DistinctTimestampsSuffice` | native/carplay/src/protocol/receiver.rs:1034-1095 | if the requests of a run show distinct timestamps its replies answer requests that showed their echo, however late, and accepted samples have delay at most D, then every accepted reply answers the current request and the clock error stays within the bound of ClockErrorBound |
| `SessionClock.EchoAloneIsNotEnough` | native/carplay/src/protocol/receiver.rs:1059-1095 | the condition is needed: a run from the start in which a timestamp repeats, a late answer passes every check, and the error becomes two seconds |
| `SessionClock.Timing.ObserveSample` | native/carplay/src/protocol/receiver.rs:1034-1057 | observe accepts and adjusts exactly as specified |
| `Replay.WindowRefinesSet` | native/carplay/src/protocol/audio.rs:66-96 | for every counter sequence the window accepts a counter exactly if it was never accepted and is above the highest minus 64, and bit i is set exactly if highest-i was accepted |
| `Replay.AcceptRefines` | native/carplay/src/protocol/audio.rs:72-96 | one step of that refinement |
| `Replay.ForgeriesAreInvisible` | native/carplay/src/protocol/audio.rs:98-116 | datagrams that fail authentication leave the window as if they never came, and no counter is played twice |
| `Replay.ReplayWindow.Admit` | native/carplay/src/protocol/audio.rs:73-96 | accept computes the specified window |
| `Replay.ReplayWindow.Packet` | native/carplay/src/protocol/audio.rs:103-116 | authentication precedes the window's change |
| `Iap2Frame.FrameRoundTrip` | native/carplay/src/protocol/iap2.rs:29-85 | decode inverts encode for every frame that can be encoded |
| `Iap2Frame.FrameOnto` | native/carplay/src/protocol/iap2.rs:55-85 | and encode inverts decode: accepted bytes are their frame's only spelling |
| `Iap2Frame.CorruptionIsRejected` | native/carplay/src/protocol/iap2.rs:16-85 | every substitution of a single byte of an encoded frame is rejected |
| `Iap2Frame.ReadsWhatWasWritten` | native/carplay/src/protocol/wired.rs:74-99 | the stream reader recovers a written frame, after a detect pattern or not, and leaves the rest |
| `Iap2Decoder.ReadsAreInvisibleIff` | native/carplay/src/protocol/iap2.rs:86-121 | for every byte stream and every cutting into reads, the buffered decoder gives the frames, remainder and fault of parsing the stream at once if and only if no read takes the buffer over 65535 bytes; otherwise it stops with Bounds behind the first of those frames |
| `Iap2Decoder.FramesArriveIff` | native/carplay/src/protocol/iap2.rs:90-121 | a stream of legal frames, however cut, comes out as exactly those frames if and only if each read fits the buffer beside the unfinished frame before it |
| `Iap2Decoder.SmallReadsArrive` | native/carplay/src/protocol/iap2.rs:86-89 | in particular when each read leaves room for the longest frame less one byte |
| `Iap2Decoder.CoalescedReadIsRefused` | native/carplay/src/protocol/iap2.rs:95-101 | but a read that ends a frame of the largest size and starts the next is refused |
| `Iap2Decoder.FrontIsFinal` | native/carplay/src/protocol/iap2.rs:103-120 | what is decided of the buffer stays decided when more bytes follow |
| `Iap2Decoder.Decoder.Push` | native/carplay/src/protocol/iap2.rs:95-101 | push appends, or refuses over the limit and changes nothing |
| `Iap2Decoder.Decoder.NextFrame` | native/carplay/src/protocol/iap2.rs:103-120 | next_frame takes the first frame off the buffer, waits or fails as specified |
| `Csm.EncodeParameters` | native/carplay/src/protocol/csm.rs:50-65 | encoding succeeds on exactly the lists within the limits and yields their print |
| `Csm.DecodeParameters` | native/carplay/src/protocol/csm.rs:67-88 | the decoding loop computes the specified parse, errors included |
| `Csm.ParametersExact` | native/carplay/src/protocol/csm.rs:50-88 | the decoder accepts exactly the prints of encodable lists and returns the list |
| `Csm.MessageExact` | native/carplay/src/protocol/csm.rs:102-127 | a byte string decodes to a message exactly when the message encodes to it |
| `WiredControl.ExactlyOnceInOrder` | native/carplay/src/protocol/wired.rs:168-223 | for every list of messages, frame size from 64 up, starting number and any inserted empty acknowledgements and repeats of the latest data frame, the peer returns exactly the encodable messages of the list without error, across wraparound |
| `WiredControl.SendsWriteFrames` | native/carplay/src/protocol/wired.rs:168-182 | a run of sends, the refused ones included, writes exactly the frames ExactlyOnceInOrder starts from and ends on the number of the last |
| `WiredControl.SendsArrive` | native/carplay/src/protocol/wired.rs:168-223 | so what a run of sends writes is received as its encodable messages |
| `WiredControl.Control.Send` | native/carplay/src/protocol/wired.rs:168-182 | send writes the message's chunks as consecutively numbered data frames, and refuses a message that cannot be encoded without change |
| `WiredControl.Control.ReceiveMessage` | native/carplay/src/protocol/wired.rs:184-223 | message reads frames until a message is whole, drops repeats and keeps the specified state |
| `WiredControl.Control.WriteFrame` | native/carplay/src/protocol/wired.rs:101-108 | a frame is written whole if it fits the negotiated size, otherwise not at all |
| `WiredControl.FillerIsSkipped` | native/carplay/src/protocol/wired.rs:206-214 | acknowledgements and repeats change nothing in the receiver |
| `WiredControl.TakePrefix` | native/carplay/src/protocol/wired.rs:186-203 | a proper prefix of a message is waited on and the whole is handed out |
| `Chunking.ChunksJoin` | native/carplay/src/protocol/wired.rs:170-170 | the pieces of a byte string rejoin to it |
| `SendWindow.CumulativeAck` | native/carplay/src/protocol/iap2.rs:280-296 | within 128 below and 127 above the released count an acknowledgement byte releases exactly the outstanding frames it counts; an old one releases nothing, one beyond the outstanding data is refused |
| `SendWindow.EveryRun` | native/carplay/src/protocol/iap2.rs:234-323 | in every run the outstanding frames are exactly the unreleased sent ones with consecutive numbers modulo 256, only sent frames go out, and each goes out at most 1 + retries times |
| `SendWindow.OnlyCountedFramesAreReleased` | native/carplay/src/protocol/iap2.rs:280-296 | after any run an acknowledgement moves the released count to the larger of the two, or not at all |
| `SendWindow.RetransmissionIsPaced` | native/carplay/src/protocol/iap2.rs:298-313 | a retransmission sends exactly the due frames, and none of them is due again before a full interval |
| `SendWindow.SynchronizationExact` | native/carplay/src/protocol/iap2.rs:173-213 | the link parameter codec is exact in both directions |
| `SendWindow.Validate` | native/carplay/src/protocol/iap2.rs:142-171 | validation with its table of seen identifiers accepts exactly the legal parameters |
| `SendWindow.Sender.New` | native/carplay/src/protocol/iap2.rs:235-249 | a window is made exactly from valid parameters with a retransmission time |
| `SendWindow.Sender.Send` | native/carplay/src/protocol/iap2.rs:251-278 | send refuses over capacity, empty and oversized payloads and otherwise numbers and queues the frame |
| `SendWindow.Sender.ReceiveAck` | native/carplay/src/protocol/iap2.rs:280-296 | acknowledge computes the specified window |
| `SendWindow.Sender.Resend` | native/carplay/src/protocol/iap2.rs:298-313 | retransmit times out without change or touches and returns exactly the due frames |
| `SendWindow.Sender.Clear` | native/carplay/src/protocol/iap2.rs:319-322 | clear drops everything outstanding and counts it acknowledged |
| `Authentication.OnlyInSequence` | native/carplay/src/protocol/csm.rs:299-409 | in every run at most one certificate read, certificate, signature order, signature and completion happen, in this order, each by the input that calls for it and before the deadline |
| `Authentication.ClosedForGood` | native/carplay/src/protocol/csm.rs:314-326 | a closed session orders nothing any more |
| `Authentication.Authenticator.ReceiveMessage` | native/carplay/src/protocol/csm.rs:328-365 | receive computes the specified stage and action |
| `Authentication.Authenticator.GiveCertificate` | native/carplay/src/protocol/csm.rs:372-389 | certificate sends what was asked for, within bounds, or closes |
| `Authentication.Authenticator.GiveSignature` | native/carplay/src/protocol/csm.rs:391-408 | signature sends what was asked for, within bounds, or closes |
| `ControlCipher.PrefixDelivered` | native/carplay/src/protocol/pairing.rs:461-506 | with ideal sealing, under any drop, repeat, reordering or alteration the opened plaintexts are a prefix of the sealed ones |
| `ControlCipher.BytesArePrefix` | native/carplay/src/protocol/receiver.rs:366-405 | so the bytes fed to the request parser are a prefix of the bytes sent in pieces of 16384 |
| `ControlCipher.NothingAfterFailure` | native/carplay/src/protocol/pairing.rs:490-505 | after the first frame that does not open nothing is returned |
| `ControlCipher.NoncesAreUnique` | native/carplay/src/protocol/pairing.rs:474-489 | no nonce seals two frames |
| `ControlCipher.UndisturbedDelivery` | native/carplay/src/protocol/pairing.rs:482-505 | without interference every sealed plaintext comes out |
| `ControlCipher.ControlCipher.Seal` | native/carplay/src/protocol/pairing.rs:482-489 | encrypt refuses empty and oversized pieces and an exhausted or failed direction, and otherwise counts up |
| `ControlCipher.ControlCipher.Unseal` | native/carplay/src/protocol/pairing.rs:490-505 | decrypt poisons the direction unless the frame opens |
| `ControlCipher.ControlCipher.Send` | native/carplay/src/protocol/receiver.rs:391-405 | send seals and writes the pieces one by one and stops at the first refusal |
| `Tlv.TlvRoundTrip` | native/carplay/src/protocol/pairing.rs:24-68 | an encoded list is decoded to its fields exactly if it has at most 16; the encoder accepts longer lists, the decoder does not |
| `Tlv.SeventeenKindsAreRefused` | native/carplay/src/protocol/pairing.rs:24-68 | a list of 17 kinds with empty values that the encoder accepts and the decoder refuses with Bounds |
| `Tlv.EncodeTlv` | native/carplay/src/protocol/pairing.rs:48-68 | encoding refuses repeated kinds and lists over 8192 bytes and otherwise prints the pieces |
| `Tlv.DecodeTlv` | native/carplay/src/protocol/pairing.rs:24-47 | the decoding loop computes the specified map or error |
| `Tlv.MapOfHolds` | native/carplay/src/protocol/pairing.rs:24-47 | the decoded map holds each field's value under its kind |
| `AaWire.InterleavedMessagesArrive` | native/projection/argo-projectiond/src/aa_wire.rs:66-139 | for every interleaving of messages on any channels with at most 16 open and 4 MiB held, and every reading in pieces of at most 16 KiB, the receiver meets no fault, leaves nothing over and completes exactly the senders' messages with their bytes |
| `AaWire.ChunkingIsInvisible` | native/projection/argo-projectiond/src/aa_session.rs:157-188 | for every byte stream, cutting it into reads of at most 16 KiB changes neither packets nor fault, and the 128 KiB limit is never met |
| `AaWire.JobEmitsEncryptedFrames` | native/projection/argo-projectiond/src/aa_wire.rs:112-139 | the frames a sender puts out are together those of encrypted_frames |
| `AaWire.FrameRecords` | native/projection/argo-projectiond/src/aa_wire.rs:112-139 | the two loops compute the specified frames or the first fault |
| `AaWire.FindRecords` | native/projection/argo-projectiond/src/aa_wire.rs:113-125 | the first loop cuts the TLS records or reports the short one |
| `AaWire.SplitJoins` | native/projection/argo-projectiond/src/aa_wire.rs:113-125 | the records rejoin to the input and each has its header |
| `AaWire.PacketDecoder.Push` | native/projection/argo-projectiond/src/aa_wire.rs:14-20 | push appends or refuses over the limit |
| `AaWire.PacketDecoder.Next` | native/projection/argo-projectiond/src/aa_wire.rs:21-53 | packet takes the first packet, waits or fails as specified |
| `AaWire.Messages.Take` | native/projection/argo-projectiond/src/aa_wire.rs:67-101 | accept computes the specified fragments and outcome |
| `AaWire.PacketAtMonotone` | native/projection/argo-projectiond/src/aa_wire.rs:21-53 | what is decided of a buffer stays decided when more bytes follow |
| `Proto.VarRoundTrip` | native/projection/argo-projectiond/src/aa_channels.rs:8-14 | every 64-bit number is read back from its varint, whatever follows |
| `Proto.CanonicalIff` | native/projection/argo-projectiond/src/aa_channels.rs:34-48 | a varint that is read is the one the printer makes exactly if it has one byte or does not end in a zero byte |
| `Proto.RedundantVarint` | native/projection/argo-projectiond/src/aa_channels.rs:34-48 | the reader does accept a longer spelling |
| `Proto.NumbersRoundTrip` | native/projection/argo-projectiond/src/aa_channels.rs:15-75 | every message of at most 1024 fields with legal identifiers is read without fault to the last number of each identifier |
| `Proto.LastNumbersMeans` | native/projection/argo-projectiond/src/aa_channels.rs:49-75 | that map says of each identifier its last number and no other identifier |
| `Proto.FieldRoundTrip` | native/projection/argo-projectiond/src/aa_channels.rs:15-31 | a written field is read whole and a length-delimited one skipped exactly |
| `Proto.WriteVar` | native/projection/argo-projectiond/src/aa_channels.rs:8-14 | the printing loop appends the varint |
| `Proto.ReadVar` | native/projection/argo-projectiond/src/aa_channels.rs:34-48 | the reading loop computes the specified number, rest or fault |
| `Proto.Numbers` | native/projection/argo-projectiond/src/aa_channels.rs:33-75 | the field loop computes the specified map or fault |
| `AaTouch.TrackerFollows` | native/projection/argo-projectiond/src/aa_channels.rs:758-841 | in every run the phone's contact tracker accepts each report and ends with exactly the contacts that are down, under their identifiers at their last points; identifiers are distinct in 0..9 |
| `AaTouch.TouchIsTracked` | native/projection/argo-projectiond/src/aa_channels.rs:804-841 | each report names the acting contact by its index and keeps the tracker in step |
| `AaTouch.TouchKeepsContacts` | native/projection/argo-projectiond/src/aa_channels.rs:787-834 | a contact keeps its identifier as long as it is down |
| `AaTouch.FreeExists` | native/projection/argo-projectiond/src/aa_channels.rs:791-796 | the search for a free identifier never fails |
| `AaTouch.IndexNames` | native/projection/argo-projectiond/src/aa_channels.rs:805-816 | the reported index is the pointer's place in pointer order |
| `AaTouch.Channels.HandleTouch` | native/projection/argo-projectiond/src/aa_channels.rs:758-841 | touch computes the specified pointers and report |
| `Ncm.EthernetFrames` | native/carplay/src/protocol/ncm.rs:81-142 | the reader returns the frames of exactly the blocks whose chain of tables and frames is legal as a whole, and otherwise the error kind of the first thing wrong on the way |
| `Ncm.ReadingExact` | native/carplay/src/protocol/ncm.rs:81-142 | the walk that fails at the first fault accepts exactly the blocks that are legal as a whole |
| `Ncm.WalkExact` | native/carplay/src/protocol/ncm.rs:91-135 | checking tables and frames on the way accepts the same chains as collecting them first and checking at the end |
| `Ncm.ReadFromExact` | native/carplay/src/protocol/ncm.rs:112-131 | the same for the entries of one table |
| `Ncm.AcceptedFits` | native/carplay/src/protocol/ncm.rs:81-142 | any accepted block has at most 8 tables and 32 frames of 14..4096 bytes, all inside the declared length (USB CDC NCM 1.0 section 3.2.1) |
| `Ncm.FramesAreDisjoint` | native/carplay/src/protocol/ncm.rs:123-129 | no byte belongs to two frames |
| `Ncm.FramesAvoidTables` | native/carplay/src/protocol/ncm.rs:137-141 | no byte belongs to a frame and a pointer table |
| `Ncm.BlockRoundTrip` | native/carplay/src/protocol/ncm.rs:81-164 | the block written for a legal frame is read back as that frame alone |
| `Ncm.BlockEndsShort` | native/carplay/src/protocol/ncm.rs:147-149 | a written block never fills whole 512-byte packets |
| `Ncm.Ntb` | native/carplay/src/protocol/ncm.rs:143-164 | the writer's buffer is the specified block, or the size is refused |
| `UsbMux.StreamsArePrefixes` | native/carplay/src/protocol/usb_mux.rs:251-319 | if the phone's segments are slices of one stream a connection, none a nonzero multiple of 2^32 away from what was delivered, the bytes written to each client are always a prefix of it |
| `UsbMux.SliceKeepsPrefixIff` | native/carplay/src/protocol/usb_mux.rs:292-311 | for a slice of any offset, length and flags, what the client has stays a prefix of the stream if and only if the slice is not written or its bytes are the stream's own next ones; it is written exactly if its offset is congruent to what was delivered modulo 2^32 |
| `UsbMux.FarSliceBreaksPrefix` | native/carplay/src/protocol/usb_mux.rs:293-303 | the condition is needed: a slice 2^32 further on is written and breaks the prefix |
| `UsbMux.EveryEnvelopeIsTruthful` | native/carplay/src/protocol/usb_mux.rs:192-364 | in every run each envelope, of the handshake, data, acknowledgement or closing, acknowledges exactly the bytes written to that client by then, nothing while the phone has not accepted, and the end of the stream at most in an acknowledgement that removes the connection |
| `UsbMux.AcknowledgesWhatIsWritten` | native/carplay/src/protocol/usb_mux.rs:292-317 | an acknowledgement sent in answer to a segment of an established connection is of exactly the bytes written by then |
| `UsbMux.EveryRun` | native/carplay/src/protocol/usb_mux.rs:192-321 | ports are given out in increasing order, so none twice; at most 4 connections; envelopes numbered in order; outstanding bytes at most 131072 + 16384, all of them sent |
| `UsbMux.SegmentRoundTrip` | native/carplay/src/protocol/usb_mux.rs:22-90 | a segment with the peer's magic number is read as what the connection said |
| `UsbMux.EventLoop.HandleOpen` | native/carplay/src/protocol/usb_mux.rs:198-234 | opening takes the next port, or is refused |
| `UsbMux.EventLoop.HandleData` | native/carplay/src/protocol/usb_mux.rs:235-245 | data is sent and counted, or ends the loop over the limit |
| `UsbMux.EventLoop.HandleClosed` | native/carplay/src/protocol/usb_mux.rs:246-250 | closing removes the connection and says so |
| `UsbMux.EventLoop.HandlePacket` | native/carplay/src/protocol/usb_mux.rs:251-256 | packets of other protocols are ignored and malformed ones end the loop |
| `UsbMux.EventLoop.HandleSegment` | native/carplay/src/protocol/usb_mux.rs:256-318 | a segment is reset, accepted, acknowledged, written and ended as specified |
| `UsbMux.EventLoop.HandlePayload` | native/carplay/src/protocol/usb_mux.rs:292-311 | a payload is written when next, skipped when it is the last again, and refused otherwise |
| `UsbMux.EventLoop.Send` | native/carplay/src/protocol/usb_mux.rs:351-364 | every envelope takes the next number |

## Left out

- Sockets, USB transfers, D-Bus, audio and video pipelines, plist, JSON, RTSP and HTTP text: foreign calls and string handling. Queues, byte strings and steps that can fail stand for them.
- Cryptography: sealing is ideal, a box opens only under the key, nonce and associated data it was sealed with. Key agreement, SRP, TLS and signatures are not part of this model.
- Scheduling and timers: which task runs next, and when a timeout strikes, is any order of steps. Times come with the calls.
- MediaRun.ValidatorAcceptsEveryRun: `WriteRecord` stays possible after a stop, where the source cancels the write; the runs covered are more than the source has. Timestamps, payloads and flags are those published, and socket errors are the step `Disconnect`.
- CameraRing.NoTornFrame: sequential consistency is assumed; the weaker orderings of the stores and of the pixel copy are not modelled. Guards and sequences do not wrap at 64 bits. That a returned frame belongs to the role asked for is not claimed, because the reader checks the role once, before it loads the sequence.
- CameraRing.Ring.Write: the event descriptor that wakes readers is left out; `invalidate` and role changes are steps of the machine.
- TouchPipeline.NoStuckTouch: coordinates are integers; the float scaling and its range check are inputs of the step. Commands that never reach the contact bytes (audio, night mode, microphone) are kept only as far as they take room in the queues.
- SessionClock.ClockErrorBound: the phone's clock is assumed to run at host rate; the casts between signed and unsigned clock values are taken not to overflow.
- Nals.ThreeByteLengthsDiffer: length fields of three bytes, on which the walkers differ, are refused by both configuration readers, so they never reach a stream.
- WiredControl.ExactlyOnceInOrder: link synchronization is not modelled; the start is a peer that has received the sender's current number. A read of a partial frame that never completes is an end of input.
- SendWindow.EveryRun: durations are nanoseconds with the longest duration as their bound; selective acknowledgements are not in the source either.
- Iap2Decoder.ReadsAreInvisibleIff: the source leaves to the caller when to take frames off; the reads modelled are emptied of frames one by one, as its documentation asks (native/carplay/src/protocol/iap2.rs:86-89).
- Authentication.OnlyInSequence: the deadline is an unbounded sum where the source saturates.
- ControlCipher.PrefixDelivered: frame boundaries on the TCP stream are given; a misaligned frame is a box of junk.
- AaWire.InterleavedMessagesArrive: packets are handed to the reassembly as they are, without the TLS layer between them.
- AaTouch.TrackerFollows: coordinates are given as integer points, or as refused; the protobuf printing of the report is not repeated here.
- UsbMux.StreamsArePrefixes: the splitting of USB transfers into packets, and failures of USB transfers in the middle of an event (after which the loop has ended), are left out. Whether too many reader tasks run and whether the client is gone come with the event.
- Replay.ForgeriesAreInvisible: whether a datagram authenticates comes with it; the audio behind the decoder is left out.
- Android Auto service discovery and channel setup, metadata, artwork, snapshots and the control socket's `BoundedQueue`: no harder property than those proved.
- Software row copying, renderer negotiation and the view's aspect fit: not protocol logic.
