# RTP-over-UDP frame pusher

A model of the packetizer of the luckfox_pico_rtp streamer, with proofs about it. The packetizer cuts encoded video frames into RTP datagrams of at most 1472 bytes. Each datagram has a 12-byte RTP fixed header (section 5.1 of RFC 3550: version 2, payload type 96, a 16-bit sequence number, a 32-bit timestamp and an SSRC). The datagrams go out over UDP.

One call of `rtp_udp_push` does four things, in this order:

1. **Merge.** If the last call left a tail staged in the carry-over buffer, that tail, a second header and the first bytes of the new frame are sent as one full 1472-byte datagram.
2. **Full datagrams.** It sends `frame_size / 1460` datagrams of header plus 1460 payload bytes. The count is kept in a `uint8_t`.
3. **Stage.** It builds header plus remainder in the carry-over buffer.
4. **Flush.** It sends the staged tail on its own when fewer than 13 bytes of room would be left in it.

A failed `sendto` ends the call with -1.

The repository has two copies of the pusher, and both are modelled:

- `debug/rtp_udp_push.c`: a `uint64_t` sequence counter, a random SSRC, and the same timestamp for all datagrams of a frame.
- `src/rtp_udp_push.c`: compiled against `include/rtp_udp_push.h`. It has an `int` counter and the fixed SSRC 123456, and it increments the timestamp after the merged datagram and after every full datagram.

The model is in layers:

- `RtpConfig` holds the sizes and integer widths. `RtpMacro` holds the literal expansion of the unparenthesised macro in `include/rtp_udp_push.h`.
- `RtpHeader` defines the header bytes, with decoders for the fields.
- `Packetizer` is a pure reference definition of one call. `Push` takes the connection state, the frame, the timestamp and the transport's answers. It returns the return code, the datagrams sent and the new state. `Variant` (`Debug` or `Src`) selects how the counters advance.
- `PushProperties` holds the lemmas about that definition: counts, error paths, conservation of payload bytes, datagram sizes, and the sequence of headers on the wire.
- `DebugPush.Pusher` and `SrcPush.Pusher` are classes over the real buffers. Their fields are arrays for `rtp_header` and `frame_data_end`, plus `seq_num` and `frame_size_end`. Each C function is a method, with loops where the C code has them. Each method is proved against the reference definition, and `Buffers` and `HeaderBytes` hold the memcpy/memset and header writes they share.

The transport is an oracle, `accepts`: the socket accepts that many datagrams of a call and fails on the next one. The datagrams it accepts are recorded in a ghost log, `sent`.

The forced flush of a nearly full staged tail happens at the end of the call that staged it (debug/rtp_udp_push.c:184-197). After every call that returns 0, the staged tail leaves room for a second header and at least one frame byte, so the next call can merge without a flush first. `CallSettles` and `SettledRoom` state this. After a refused flush the tail stays too full to merge. When it is longer than 1460 bytes, the next call writes past its datagram buffer (see Findings).

If a full-datagram send fails, the call returns -1 with `frame_size_end` already set to the raw remainder (debug/rtp_udp_push.c:148), while the carry-over buffer was never staged and still holds zeros. The next call merges that buffer anyway: it sends that many zero bytes where an RTP header and payload belong, and the last bytes of the failed frame are lost. `LoopSendFails` states the state this leaves.

With `RTP_PACKET_SIZE` unparenthesised, the src/ copy's quotient and remainder are not 1460-based (see Findings).

## Model

| member | source | states |
|---|---|---|
| RtpConfig.PacketSizes | src/luckfox_pico_rtp/debug/rtp_udp_push.h:12-14 | the payload of a full datagram is the UDP packet size minus the header size |
| RtpConfig.PackQuotient | src/luckfox_pico_rtp/debug/rtp_udp_push.c:147 | the number of whole 1460-byte payloads q satisfies q·1460 ≤ size < (q+1)·1460 |
| RtpConfig.PackRemainder | src/luckfox_pico_rtp/debug/rtp_udp_push.c:148 | the remainder is below 1460, and quotient·1460 + remainder is the frame size |
| RtpConfig.Zeros | src/luckfox_pico_rtp/debug/rtp_udp_push.c:259 | memset leaves n bytes, every one of them 0 |
| RtpMacro.LiteralPackCount | src/luckfox_pico_rtp/src/rtp_udp_push.c:144 | the compiled `frame_size / 1472 - 12`, stored in a uint8_t, is below 256 |
| RtpMacro.LiteralRemainder | src/luckfox_pico_rtp/src/rtp_udp_push.c:145 | the compiled `frame_size % 1472 - 12` is a size_t value |
| RtpMacro.LiteralOperand | src/luckfox_pico_rtp/include/rtp_udp_push.h:11-13 | used as a whole expression (memcpy length, `+=`), the unparenthesised macro is still 1460 |
| RtpMacro.Example3000 | src/luckfox_pico_rtp/src/rtp_udp_push.c:144-145 | for a 3000-byte frame the compiled code computes 246 packets and remainder 44, where 2 and 80 are intended |
| RtpMacro.SmallFramesWrapCount | src/luckfox_pico_rtp/src/rtp_udp_push.c:144 | every frame shorter than 12·1472 bytes gets a compiled packet count of 244 or more, always different from the intended count (at most 12) |
| RtpMacro.LargeFramesDropBytes | src/luckfox_pico_rtp/src/rtp_udp_push.c:144-176 | for frames of at least 12·1472 bytes whose remainder by 1472 is at least 12, the compiled count is (size/1472 − 12) mod 256 and the remainder size mod 1472 − 12; the staged tail fits the buffer, and the full datagrams plus the tail carry fewer bytes than the frame |
| RtpMacro.Example19236 | src/luckfox_pico_rtp/src/rtp_udp_push.c:144-145 | a 19236-byte frame: one full datagram and 88 staged bytes, so 17688 bytes are never sent, where 13 and 256 are meant |
| RtpMacro.SmallRemainderWraps | src/luckfox_pico_rtp/src/rtp_udp_push.c:145 | when size mod 1472 is below 12, the compiled remainder wraps to at least 2^32 − 12 |
| RtpMacro.LargeRemainderShifted | src/luckfox_pico_rtp/src/rtp_udp_push.c:145 | otherwise it is size mod 1472 minus 12, which differs from the intended remainder whenever the quotients by 1472 and 1460 agree |
| RtpHeader.InitialHeader | src/luckfox_pico_rtp/debug/rtp_udp_push.c:61-77 | the initial header is 12 bytes long |
| RtpHeader.Stamp | src/luckfox_pico_rtp/debug/rtp_udp_push.c:90-99 | stamping a header keeps its length and leaves bytes 0–1 and 8–11 untouched |
| RtpHeader.FourBytes | src/luckfox_pico_rtp/debug/rtp_udp_push.c:95-98 | the four big-endian bytes of a 32-bit value join back into that value |
| RtpHeader.TwoBytes | src/luckfox_pico_rtp/debug/rtp_udp_push.c:92-93 | the two bytes written for the counter decode to the counter mod 2^16 |
| RtpHeader.InitialHeaderFields | src/luckfox_pico_rtp/debug/rtp_udp_push.c:56-77 | a receiver decodes the initial header as V=2, P=X=CC=M=0, PT=96, sequence 0, timestamp 0, and the given SSRC |
| RtpHeader.StampFields | src/luckfox_pico_rtp/debug/rtp_udp_push.c:90-99 | after build_rtp_packet the header decodes to the counter mod 2^16 and the timestamp, and every other field is unchanged |
| RtpHeader.StampTwice | src/luckfox_pico_rtp/debug/rtp_udp_push.c:152 | a second build_rtp_packet fully replaces the first one's fields |
| RtpHeader.StampSeqModulo | src/luckfox_pico_rtp/debug/rtp_udp_push.c:92-93 | counters that agree mod 2^16 give the same header |
| Packetizer.PackCount | src/luckfox_pico_rtp/debug/rtp_udp_push.c:147 | the uint8_t packet count is below 256 and at most the true quotient; it equals the quotient when that is below 256, and the packets it counts plus the remainder fit in the frame |
| Packetizer.FullPacket | src/luckfox_pico_rtp/debug/rtp_udp_push.c:152-156 | each full datagram is exactly 1472 bytes |
| Packetizer.Staged | src/luckfox_pico_rtp/debug/rtp_udp_push.c:174-181 | staging leaves a well-formed state whose staged length is remainder + 12 |
| Packetizer.Fragment | src/luckfox_pico_rtp/debug/rtp_udp_push.c:146-199 | steps 2–4 leave a well-formed state (staged length below 1472) |
| Packetizer.Push | src/luckfox_pico_rtp/debug/rtp_udp_push.c:112-200 | one call leaves a well-formed state |
| PushProperties.AddMod64 | src/luckfox_pico_rtp/debug/rtp_udp_push.h:21 | incrementing a uint64_t counter step by step equals adding modulo 2^64 |
| PushProperties.AddMod32 | src/luckfox_pico_rtp/src/rtp_udp_push.c:133 | incrementing the uint32_t frame_pts step by step equals adding modulo 2^32 |
| PushProperties.SeqAfterAdd | src/luckfox_pico_rtp/debug/rtp_udp_push.c:134 | j increments followed by k increments of seq_num equal j + k increments, in both variants |
| PushProperties.PtsAfterAdd | src/luckfox_pico_rtp/src/rtp_udp_push.c:165 | j timestamp advances followed by k equal j + k, in both variants |
| PushProperties.SeqAfterWire | src/luckfox_pico_rtp/debug/rtp_udp_push.c:92-93 | the 16-bit sequence number on the wire is (start + k) mod 2^16, also across the 64-bit wrap |
| PushProperties.FullPacketsLength | src/luckfox_pico_rtp/debug/rtp_udp_push.c:150-171 | k loop passes produce k datagrams |
| PushProperties.FullPacketsIndex | src/luckfox_pico_rtp/debug/rtp_udp_push.c:150-171 | the i-th datagram of the loop is header i followed by payload i |
| PushProperties.BodiesOfFullPackets | src/luckfox_pico_rtp/debug/rtp_udp_push.c:154-158 | the payloads of k full datagrams, joined, are exactly the first k·1460 bytes of the data |
| PushProperties.FullPacketBody | src/luckfox_pico_rtp/debug/rtp_udp_push.c:156-158 | the payload of full datagram i is bytes i·1460 to (i+1)·1460 of the data |
| PushProperties.FragmentCount | src/luckfox_pico_rtp/debug/rtp_udp_push.c:146-197 | steps 2–4 send min(accepts, attempts) datagrams, return 0 exactly when the socket accepts all attempts and −1 otherwise, and advance the counter by the number sent |
| PushProperties.StagedLayout | src/luckfox_pico_rtp/debug/rtp_udp_push.c:174-181 | the staged tail is the header stamped after the n full datagrams, followed by the last remainder bytes of the data |
| PushProperties.FragmentConserves | src/luckfox_pico_rtp/debug/rtp_udp_push.c:150-181 | after a successful steps 2–4 (no uint8_t wrap), the payloads sent plus the staged payload are exactly the data |
| PushProperties.FragmentSettles | src/luckfox_pico_rtp/debug/rtp_udp_push.c:174-197 | after a successful steps 2–4 the carry-over buffer is empty or holds a header with the current sequence number and 1 to 1447 payload bytes, with room for another header |
| PushProperties.FragmentSent | src/luckfox_pico_rtp/debug/rtp_udp_push.c:150-197 | the datagrams sent are the accepted full datagrams, plus the staged tail exactly when it is flushed with the socket still accepting |
| PushProperties.StagedSettled | src/luckfox_pico_rtp/debug/rtp_udp_push.c:174-184 | a staged tail that is not flushed is a settled state |
| PushProperties.StagedHeader | src/luckfox_pico_rtp/debug/rtp_udp_push.c:176-178 | the staged tail starts with the header stamped for the next counter and timestamp |
| PushProperties.FullPacketsSized | src/luckfox_pico_rtp/debug/rtp_udp_push.c:160 | every datagram of the loop is 1472 bytes |
| PushProperties.FragmentSizes | src/luckfox_pico_rtp/debug/rtp_udp_push.c:150-197 | every datagram of steps 2–4 is longer than a header and at most 1472 bytes; the full ones are exactly 1472; a flushed tail is at least 1460 |
| PushProperties.SendCount | src/luckfox_pico_rtp/debug/rtp_udp_push.c:112-200 | a call sends min(accepts, attempts) datagrams, returns 0 exactly when every sendto succeeds and −1 otherwise, and advances seq_num by the number of datagrams sent |
| PushProperties.MergeCount | src/luckfox_pico_rtp/debug/rtp_udp_push.c:117-144 | after a successful merge, the rest of the call sends one fewer datagram and the counter ends one ahead |
| PushProperties.MergeLayout | src/luckfox_pico_rtp/debug/rtp_udp_push.c:117-127 | the merged datagram is 1472 bytes: the staged tail, a header with the current counter and this frame's timestamp, then the first frame bytes; both of its headers carry the same sequence number |
| PushProperties.MergeSendFails | src/luckfox_pico_rtp/debug/rtp_udp_push.c:125-132 | if the merged send fails: −1, nothing sent, counter and carry-over buffer unchanged, only the header restamped, and the staged tail still pending |
| PushProperties.LoopSendFails | src/luckfox_pico_rtp/debug/rtp_udp_push.c:160-165 | if a loop send fails: −1, the counter advanced by the sends made, and frame_size_end left as the raw remainder, not a staged length |
| PushProperties.FlushSendFails | src/luckfox_pico_rtp/debug/rtp_udp_push.c:184-191 | if the flush send fails: −1, and a staged length of at least 1460 is left; above 1460 no next call can merge within its buffers |
| PushProperties.RefusedFlush1459 | src/luckfox_pico_rtp/debug/rtp_udp_push.c:117-191 | a 1459-byte frame with nothing staged and the flush refused returns −1 and leaves 1471 bytes staged, too many for the next merge's header to fit in 1472 bytes |
| PushProperties.RefusedFlushRetried | src/luckfox_pico_rtp/debug/rtp_udp_push.c:183-191 | after a refused flush the staged tail is still too full to merge |
| Packetizer.PushRetryingFlush | src/luckfox_pico_rtp/debug/rtp_udp_push.c:183-197 | the corrected call: a tail too full to merge is sent on its own first, and the call then continues from an emptied carry-over buffer; the result is well formed |
| PushProperties.RetryingFlushSettles | src/luckfox_pico_rtp/debug/rtp_udp_push.c:183-197 | the corrected call sends the too-full tail first and, when it returns 0, leaves the carry-over buffer settled |
| PushProperties.RetryingFlushConserves | src/luckfox_pico_rtp/debug/rtp_udp_push.c:117-197 | when the corrected call returns 0, the payloads it sends followed by the staged bytes are the old tail's payload followed by the frame |
| PushProperties.TailFirst | src/luckfox_pico_rtp/debug/rtp_udp_push.c:186 | sending the tail on its own before a call that conserves the frame conserves the tail's payload, then the frame |
| PushProperties.CallSettles | src/luckfox_pico_rtp/debug/rtp_udp_push.c:183-197 | a call that returns 0 (or whose merged send fails on a settled state) leaves the carry-over buffer settled |
| PushProperties.FragmentStagedHeader | src/luckfox_pico_rtp/debug/rtp_udp_push.c:174-180 | a tail staged by steps 2–4 carries the sequence number and timestamp of the datagram that follows the ones sent |
| PushProperties.CallStagedTimestamp | src/luckfox_pico_rtp/src/rtp_udp_push.c:133-177 | a tail staged by a successful call carries frame_pts advanced once per datagram sent (src), or the frame's own timestamp (debug) |
| PushProperties.SettledRoom | src/luckfox_pico_rtp/debug/rtp_udp_push.c:183-184 | a settled tail leaves room for a second header and at least one frame byte |
| PushProperties.MergedPayload | src/luckfox_pico_rtp/debug/rtp_udp_push.c:119-125 | the payload of the merged datagram is the staged payload followed by the first frame bytes |
| PushProperties.MergeConserves | src/luckfox_pico_rtp/debug/rtp_udp_push.c:117-181 | after merge and steps 2–4 succeed, the payload sent plus the payload staged is the old staged payload followed by the frame |
| PushProperties.Conservation | src/luckfox_pico_rtp/debug/rtp_udp_push.c:112-200 | over a successful call from a settled state (no uint8_t wrap), the payload sent plus the payload staged is the old staged payload followed by the whole frame: nothing is lost, duplicated or reordered |
| PushProperties.DatagramSizes | src/luckfox_pico_rtp/debug/rtp_udp_push.c:125-186 | every datagram of a call is longer than a header and at most 1472 bytes; the merged and full ones are exactly 1472; a flushed tail is at least 1460 |
| PushProperties.MergedSizes | src/luckfox_pico_rtp/debug/rtp_udp_push.c:125-127 | with a merge, the merged datagram and the full datagrams are 1472 bytes and a flushed tail is at least 1460 |
| PushProperties.FullPacketHeader | src/luckfox_pico_rtp/debug/rtp_udp_push.c:152-154 | full datagram i starts with the header stamped with the i-th counter and timestamp of the loop |
| PushProperties.FullPacketsHeaders | src/luckfox_pico_rtp/debug/rtp_udp_push.c:150-171 | every loop datagram carries the header of its position |
| PushProperties.FragmentHeaders | src/luckfox_pico_rtp/debug/rtp_udp_push.c:146-197 | every datagram of steps 2–4, the flushed tail included, carries the header of its position |
| PushProperties.CallHeaders | src/luckfox_pico_rtp/debug/rtp_udp_push.c:112-200 | from the merged datagram on, every datagram of a call carries the header of its position |
| PushProperties.StampShift | src/luckfox_pico_rtp/src/rtp_udp_push.c:132-133 | after the merge's increments, the j-th later header is the (j+1)-th header of the call |
| PushProperties.StampedAt | src/luckfox_pico_rtp/debug/rtp_udp_push.c:90-99 | a datagram stamped for position i decodes to sequence (start + i) mod 2^16 and its position's timestamp, with the connection's fixed bytes |
| PushProperties.WireHeaders | src/luckfox_pico_rtp/debug/rtp_udp_push.c:112-200 | from a settled state, the call's datagrams carry consecutive sequence numbers mod 2^16 that start at the current counter, and each keeps the connection's version, payload type and SSRC bytes |
| PushProperties.WireTimestamps | src/luckfox_pico_rtp/src/rtp_udp_push.c:147-165 | every datagram after the merged one carries frame_pts advanced by its position (src) or the frame's timestamp (debug) |
| PushProperties.PushFirstHeader | src/luckfox_pico_rtp/debug/rtp_udp_push.c:117-127 | the first datagram of a merging call starts with the staged header, which carries the current sequence number and the fixed bytes |
| PushProperties.MergedFirstHeader | src/luckfox_pico_rtp/debug/rtp_udp_push.c:119-123 | the merged datagram begins with the staged tail's own header, carrying the current sequence number |
| PushProperties.TruncationDropsFrame | src/luckfox_pico_rtp/debug/rtp_udp_push.c:147-148 | with nothing staged, a frame of exactly 256·1460 bytes is silently dropped: return 0, nothing sent, nothing staged, counter unchanged |
| PushProperties.FirstFrame3000 | src/luckfox_pico_rtp/debug/rtp_udp_push.c:112-200 | a 3000-byte first frame gives two full datagrams (sequence 0 and 1, the frame's first 2920 bytes) and stages 92 bytes holding the last 80 |
| Buffers.Copy | src/luckfox_pico_rtp/debug/rtp_udp_push.c:154-156 | memcpy replaces the target range with the source and leaves every other byte as it was |
| Buffers.Clear | src/luckfox_pico_rtp/debug/rtp_udp_push.c:195 | memset leaves every byte of the buffer 0 |
| HeaderBytes.WriteInitialHeader | src/luckfox_pico_rtp/debug/rtp_udp_push.c:61-77 | the array holds RtpHeader.InitialHeader of the SSRC |
| HeaderBytes.WriteStamp | src/luckfox_pico_rtp/debug/rtp_udp_push.c:92-98 | the array holds RtpHeader.Stamp of its old contents |
| DebugPush.Pusher.constructor | src/luckfox_pico_rtp/debug/rtp_udp_push.c:235-262 | after init: counter 0, the initial header for the drawn SSRC, a cleared 1472-byte carry-over buffer, nothing staged, nothing sent |
| DebugPush.Pusher.InitRtpHeader | src/luckfox_pico_rtp/debug/rtp_udp_push.c:51-80 | counter 0 and the initial header; the carry-over state is untouched |
| DebugPush.Pusher.BuildRtpPacket | src/luckfox_pico_rtp/debug/rtp_udp_push.c:90-99 | the header is restamped with the current counter and the timestamp |
| DebugPush.Pusher.RtpUdpPush | src/luckfox_pico_rtp/debug/rtp_udp_push.c:112-200 | return code, new state and datagrams handed to sendto are exactly those of Packetizer.Push (variant Debug) |
| DebugPush.Pusher.PushMerging | src/luckfox_pico_rtp/debug/rtp_udp_push.c:117-199 | with a staged tail: −1 with only the header restamped if the merged send fails; otherwise the merged datagram followed by Packetizer.Fragment on the rest of the frame |
| DebugPush.Pusher.SendMerged | src/luckfox_pico_rtp/debug/rtp_udp_push.c:117-143 | sends Packetizer.MergedDatagram and reaches Packetizer.AfterMerge when the socket accepts; otherwise only the header changes |
| DebugPush.Pusher.SendFragments | src/luckfox_pico_rtp/debug/rtp_udp_push.c:146-199 | return code, new state and datagrams sent are those of Packetizer.Fragment |
| DebugPush.Pusher.SendFullPackets | src/luckfox_pico_rtp/debug/rtp_udp_push.c:147-171 | step 2 sends the first min(accepts, count) full datagrams, advances the counter by as many, and sets frame_size_end to the remainder |
| DebugPush.Pusher.FullPacketLoop | src/luckfox_pico_rtp/debug/rtp_udp_push.c:150-171 | the loop succeeds exactly when the socket accepts all PackCount datagrams; it logs Packetizer.FullPackets of the datagrams it sent, advances the counter by as many, and leaves the header stamped for the last pass |
| DebugPush.Pusher.SendFullPacket | src/luckfox_pico_rtp/debug/rtp_udp_push.c:152-167 | one pass stamps header i and, if the socket accepts, appends full datagram i to the log and increments the counter |
| DebugPush.Pusher.FillFullPacket | src/luckfox_pico_rtp/debug/rtp_udp_push.c:154-156 | the datagram buffer holds the header followed by the next 1460 frame bytes |
| DebugPush.Pusher.StageAndFlush | src/luckfox_pico_rtp/debug/rtp_udp_push.c:173-197 | staging and flush complete the outcome of Packetizer.Fragment |
| DebugPush.Pusher.Stage | src/luckfox_pico_rtp/debug/rtp_udp_push.c:174-181 | the state afterwards is Packetizer.Staged; nothing is sent |
| DebugPush.Pusher.StageBytes | src/luckfox_pico_rtp/debug/rtp_udp_push.c:176-180 | the carry-over buffer starts with the restamped header and the remainder bytes, its tail is unchanged, and its length grows by 12 |
| DebugPush.Pusher.Flush | src/luckfox_pico_rtp/debug/rtp_udp_push.c:184-197 | a tail with fewer than 13 bytes of room is sent and cleared, with the counter incremented; −1 if the socket refuses; any other state is left alone |
| SrcPush.Pusher.constructor | src/luckfox_pico_rtp/src/rtp_udp_push.c:230-256 | after init: counter 0, the initial header for SSRC 123456, a cleared carry-over buffer, nothing staged, nothing sent |
| SrcPush.Pusher.InitRtp | src/luckfox_pico_rtp/src/rtp_udp_push.c:49-78 | counter 0 and the initial header with the fixed SSRC |
| SrcPush.Pusher.BuildRtpPacket | src/luckfox_pico_rtp/src/rtp_udp_push.c:88-97 | the header is restamped with the current counter and the timestamp |
| SrcPush.Pusher.RtpUdpPush | src/luckfox_pico_rtp/src/rtp_udp_push.c:110-195 | return code, new state and datagrams handed to sendto are exactly those of Packetizer.Push (variant Src) |
| SrcPush.Pusher.PushMerging | src/luckfox_pico_rtp/src/rtp_udp_push.c:115-194 | with a staged tail: −1 if the merged send fails; otherwise the merged datagram, then Packetizer.Fragment on the rest with frame_pts advanced once |
| SrcPush.Pusher.SendMerged | src/luckfox_pico_rtp/src/rtp_udp_push.c:115-141 | sends Packetizer.MergedDatagram and reaches Packetizer.AfterMerge when the socket accepts; otherwise only the header changes |
| SrcPush.Pusher.SendFragments | src/luckfox_pico_rtp/src/rtp_udp_push.c:144-194 | return code, new state and datagrams sent are those of Packetizer.Fragment (variant Src) |
| SrcPush.Pusher.SendFullPackets | src/luckfox_pico_rtp/src/rtp_udp_push.c:144-169 | step 2 sends the first min(accepts, count) full datagrams, each with frame_pts advanced by its position, advances the counter by as many, and sets frame_size_end to the remainder |
| SrcPush.Pusher.FullPacketLoop | src/luckfox_pico_rtp/src/rtp_udp_push.c:147-169 | the loop succeeds exactly when the socket accepts all PackCount datagrams; it logs Packetizer.FullPackets of the datagrams it sent, and advances the counter and frame_pts by as many |
| SrcPush.Pusher.SendFullPacket | src/luckfox_pico_rtp/src/rtp_udp_push.c:149-166 | one pass stamps header i with timestamp pts + i and, if the socket accepts, logs full datagram i and increments the counter |
| SrcPush.Pusher.FillFullPacket | src/luckfox_pico_rtp/src/rtp_udp_push.c:151-153 | the datagram buffer holds the header followed by the next 1460 frame bytes |
| SrcPush.Pusher.StageAndFlush | src/luckfox_pico_rtp/src/rtp_udp_push.c:171-192 | staging and flush complete the outcome of Packetizer.Fragment (variant Src) |
| SrcPush.Pusher.Stage | src/luckfox_pico_rtp/src/rtp_udp_push.c:171-177 | the state afterwards is Packetizer.Staged, its header stamped with the advanced frame_pts |
| SrcPush.Pusher.StageBytes | src/luckfox_pico_rtp/src/rtp_udp_push.c:173-176 | the carry-over buffer starts with the restamped header and the remainder bytes, its tail is unchanged, and its length grows by 12 |
| SrcPush.Pusher.Flush | src/luckfox_pico_rtp/src/rtp_udp_push.c:179-192 | a tail with fewer than 13 bytes of room is sent and cleared, with the counter incremented; −1 if the socket refuses; any other state is left alone |

## Left out

- Sockets: `init_udp_connection`, `socket`, the address set-up, `close` and `rtp_udp_push_deinit` are not modelled. `sendto` is the oracle `accepts`, which says how many datagrams of a call succeed. Partial sends and `errno` are not modelled.
- `malloc` and `free` of `frame_data_end`: the buffer is an array allocated by the constructor, and the allocation-failure path of `rtp_udp_push_init` is not modelled.
- `rand()` in `init_rtp_header`: the SSRC it draws is a constructor parameter.
- The `conn == NULL` checks: a `Pusher` object always exists.
- `fprintf` diagnostics.
- The `memset` of the on-stack `udp_packet` after each send: the buffer is a fresh array, none of whose bytes are sent before they are written.
- The globals `frame_data_end` and `frame_size_end` are fields of the one `Pusher`. Two connections in one process would share them in C, and the model does not capture that sharing. Neither `rtp_udp_push_init` nor `rtp_udp_push_deinit` resets `frame_size_end`, so in C a second init in the same process keeps the old staged length over a freshly zeroed buffer. Both constructors start with nothing staged, so the model does not capture that re-init case.
- The frame is a read-only `seq`. The caller's buffer cannot alias the carry-over buffer.
- `rtp_udp_push_new` is declared in `debug/rtp_udp_push.h` but defined nowhere, so there is nothing to model.
- `size_t` is taken as 32 bits, as on the ARM target. Only `RtpMacro.LiteralRemainder` depends on this.
- The GStreamer/MPI capture pipeline, `main`, the receiver and the build files are not part of this model.
- SrcPush.Pusher.RtpUdpPush: requires that the `int seq_num` does not overflow during the call. Signed overflow is undefined in C, so the model does not give it a value.
- DebugPush.Pusher.RtpUdpPush: requires `MergeDefined`, i.e. that the staged tail plus a header fits in 1472 bytes and that the frame holds the bytes the merge copies. Otherwise `memcpy` reads or writes out of bounds and the `size_t` frame size wraps, which C leaves undefined. A frame shorter than the merge room that arrives after a staged tail is one such input: the merge copy at debug/rtp_udp_push.c:125 reads past the frame, and the subtraction at line 140 wraps. A staged tail longer than 1460 bytes, left by a refused flush, is another (see Findings). The same requirement is on SrcPush.Pusher.RtpUdpPush and on Packetizer.Push.
- SrcPush.Pusher.PushMerging: continues with the quotient and remainder by 1460 of the rest of the frame, not with the expansion of the unparenthesised macro at src/rtp_udp_push.c:144-145. With the expansion the copies read outside the frame whenever the frame is shorter than 12·1472 bytes or its remainder by 1472 is below 12, which C leaves undefined; every other frame is read in bounds but loses bytes (see Findings).
- SrcPush.Pusher.SendFullPackets: counts `|data| / 1460` full datagrams (mod 256) and keeps `|data| % 1460` bytes, not the expansion at src/rtp_udp_push.c:144-145, for the same reason.
- SrcPush.Pusher.FullPacketLoop: runs for the 1460-based count `PackCount`, not the expansion at src/rtp_udp_push.c:144, for the same reason.
- SrcPush.Pusher.SendFragments: sends the 1460-based full datagrams and stages the 1460-based remainder, not the expansion at src/rtp_udp_push.c:144-145, for the same reason.
- SrcPush.Pusher.RtpUdpPush: takes the quotient and remainder by 1460, as intended, not the expansion of the unparenthesised macro. With the expansion the copies read outside the frame for frames shorter than 12·1472 bytes or with a remainder by 1472 below 12, and every other frame silently loses bytes (see Findings). `RtpMacro` models that expansion separately.
- PushProperties.Conservation: is stated only when the `uint8_t` packet count does not wrap (frames below 256·1460 bytes after the merge). `TruncationDropsFrame` shows what happens at the wrap.

## Findings

| source | as written | input that shows it | evidently intended | confidence | as-written member | corrected member |
|---|---|---|---|---|---|---|
| src/luckfox_pico_rtp/src/rtp_udp_push.c:144 | `frame_size / RTP_PACKET_SIZE` with the unparenthesised macro of include/rtp_udp_push.h:13 is `frame_size / 1472 - 12` | a 3000-byte frame with nothing staged: 246 packets counted, 2 intended, so the loop reads far past the frame | the number of whole 1460-byte payloads | not executed | RtpMacro.SmallFramesWrapCount | RtpConfig.PackQuotient |
| src/luckfox_pico_rtp/src/rtp_udp_push.c:145 | `frame_size % RTP_PACKET_SIZE` is `frame_size % 1472 - 12` in size_t | a 3000-byte frame: remainder 44 instead of 80; a 1472-byte frame: remainder 2^32 − 12 | the bytes left over after the whole 1460-byte payloads | not executed | RtpMacro.SmallRemainderWraps | RtpConfig.PackRemainder |
| src/luckfox_pico_rtp/debug/rtp_udp_push.c:186-191 | a refused flush returns −1 and keeps the staged tail of at least 1460 bytes; the next call merges it anyway, writing the header at `udp_packet + frame_size_end` (line 123) and copying `1472 − (frame_size_end + 12)` bytes (line 125), which wraps in `size_t` when the tail is longer than 1460 | a 1459-byte frame with nothing staged and the flush refused leaves 1471 bytes staged; the next call writes its header to bytes 1471..1482 of the 1472-byte `udp_packet` | a tail too full to merge is never merged (the comment at line 183): it is sent on its own first | not executed | PushProperties.FlushSendFails | Packetizer.PushRetryingFlush |
| src/luckfox_pico_rtp/src/rtp_udp_push.c:144-145 | for a frame of at least 12·1472 bytes whose remainder by 1472 is at least 12, the expanded count and remainder keep every copy inside the frame, but they cover fewer bytes than the frame holds | a 19236-byte frame: 1 full datagram and 88 staged bytes, 17688 bytes never sent | every payload byte is sent, in order | not executed | RtpMacro.LargeFramesDropBytes | PushProperties.FragmentConserves |
