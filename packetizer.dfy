/** Reference definition of one call of rtp_udp_push, as a function of the
    state it reads and the transport's answers. Both copies of the C file
    share it; `Variant` selects the one difference in behaviour: the src/ copy
    increments frame_pts after every merged or full datagram it sends, the
    debug/ copy never does. (Their other difference, the width of seq_num, is
    in the classes of DebugPush and SrcPush.)

    A call goes through four steps, in this order:
      (a) a staged tail is merged with a second header and the start of the
          frame into one full 1472-byte datagram;
      (b) frame_size / 1460 datagrams of header + 1460 frame bytes are sent,
          counted in a uint8_t;
      (c) header + remainder are staged in the carry-over buffer;
      (d) the staged tail is sent on its own when fewer than 13 bytes of room
          would be left in it.
    The transport is the oracle `accepts`: it accepts that many datagrams of
    this call and rejects the next one; a rejected sendto ends the call with -1. */
module Packetizer {
  import opened RtpConfig
  import opened RtpHeader

  /** debug/rtp_udp_push.c or src/rtp_udp_push.c */
  datatype Variant = Debug | Src

  /** What a call reads and writes: conn->seq_num, conn->rtp_header, and the
      carry-over globals frame_data_end (all 1472 bytes of it) and frame_size_end. */
  datatype Conn = Conn(seqNum: nat, header: seq<Byte>, buf: seq<Byte>, len: nat)

  /** The return code, the datagrams handed to a successful sendto, in order,
      and the state afterwards. */
  datatype Outcome = Outcome(rc: int, sent: seq<seq<Byte>>, post: Conn)

  predicate WellFormed(c: Conn) {
    |c.header| == HeaderSize && |c.buf| == UdpPacketSize && c.len < UdpPacketSize
  }

  function Min(a: nat, b: nat): nat { if a <= b then a else b }

  /** seq_num after k more increments: uint64_t in debug/, int in src/ (where
      the callers must keep it from overflowing). */
  function SeqAfter(v: Variant, s: nat, k: nat): nat {
    if v == Debug then (s + k) % U64Modulus else s + k
  }

  /** frame_pts after k sends: unchanged in debug/, k uint32_t increments in src/. */
  function PtsAfter(v: Variant, pts: U32, k: nat): U32 {
    if v == Debug then pts else (pts + k) % U32Modulus
  }

  /** frame_pack_number: the quotient by 1460 truncated to uint8_t. */
  function PackCount(frameSize: nat): (n: nat)
    ensures n < 256 && n <= PackQuotient(frameSize)
    ensures PackQuotient(frameSize) < 256 ==> n == PackQuotient(frameSize)
    ensures n * RtpPacketSize + PackRemainder(frameSize) <= frameSize
  {
    PackQuotient(frameSize) % 256
  }

  /** Frame bytes the merge step takes: UDP_PACKET_SIZE - (frame_size_end + RTP_HEADER_SIZE). */
  function MergeRoom(len: nat): nat
    requires len + HeaderSize <= UdpPacketSize
  {
    UdpPacketSize - (len + HeaderSize)
  }

  /** What the merge step needs in order to stay inside its buffers: the
      staged bytes and a second header fit in one datagram, and the frame holds
      the bytes that fill it up (otherwise memcpy reads past the frame and the
      size_t frame_size wraps). */
  predicate MergeDefined(c: Conn, frame: seq<Byte>) {
    c.len > 0 ==> c.len + HeaderSize <= UdpPacketSize && |frame| >= MergeRoom(c.len)
  }

  /** The part of the frame left for steps (b) to (d). */
  function Rest(c: Conn, frame: seq<Byte>): seq<Byte>
    requires MergeDefined(c, frame)
  {
    if c.len > 0 then frame[MergeRoom(c.len)..] else frame
  }

  /** Step (d)'s test on the staged length `len`. */
  predicate TooFullToMerge(len: nat) {
    len > 0 && UdpPacketSize - len < HeaderSize + 1
  }

  /** The i-th full datagram of step (b): a header stamped with the i-th
      sequence number and timestamp of the step, then the i-th 1460 bytes. */
  function FullPacket(v: Variant, h: seq<Byte>, s: nat, pts: U32, data: seq<Byte>, i: nat): (d: seq<Byte>)
    requires |h| == HeaderSize && (i + 1) * RtpPacketSize <= |data|
    ensures |d| == UdpPacketSize
  {
    Stamp(h, SeqAfter(v, s, i), PtsAfter(v, pts, i)) + data[i * RtpPacketSize .. (i + 1) * RtpPacketSize]
  }

  /** The first k full datagrams of step (b). */
  function FullPackets(v: Variant, h: seq<Byte>, s: nat, pts: U32, data: seq<Byte>, k: nat): seq<seq<Byte>>
    requires |h| == HeaderSize && k * RtpPacketSize <= |data|
  {
    if k == 0 then []
    else FullPackets(v, h, s, pts, data, k - 1) + [FullPacket(v, h, s, pts, data, k - 1)]
  }

  /** Step (c): the header stamped for the next sequence number and
      timestamp, followed by the `r` left-over bytes, copied over the front of
      the carry-over buffer; the rest of the buffer keeps its old bytes. */
  function Staged(v: Variant, c: Conn, data: seq<Byte>, pts: U32): (d: Conn)
    requires |c.header| == HeaderSize && |c.buf| == UdpPacketSize
    requires PackRemainder(|data|) > 0
    ensures WellFormed(d) && d.len == PackRemainder(|data|) + HeaderSize
  {
    var n := PackCount(|data|);
    var r := PackRemainder(|data|);
    var s := SeqAfter(v, c.seqNum, n);
    var h := Stamp(c.header, s, PtsAfter(v, pts, n));
    Conn(s, h, h + data[n * RtpPacketSize .. n * RtpPacketSize + r] + c.buf[r + HeaderSize ..], r + HeaderSize)
  }

  /** Steps (b) to (d) on the bytes `data` left after the merge step. */
  function Fragment(v: Variant, c: Conn, data: seq<Byte>, pts: U32, accepts: nat): (o: Outcome)
    requires |c.header| == HeaderSize && |c.buf| == UdpPacketSize
    ensures WellFormed(o.post)
  {
    var n := PackCount(|data|);
    var r := PackRemainder(|data|);
    if accepts < n then
      // the send of datagram number `accepts` fails; frame_size_end already
      // holds the raw remainder
      var s := SeqAfter(v, c.seqNum, accepts);
      Outcome(-1, FullPackets(v, c.header, c.seqNum, pts, data, accepts),
              Conn(s, Stamp(c.header, s, PtsAfter(v, pts, accepts)), c.buf, r))
    else
      var full := FullPackets(v, c.header, c.seqNum, pts, data, n);
      if r == 0 then
        var h := if n == 0 then c.header
                 else Stamp(c.header, SeqAfter(v, c.seqNum, n - 1), PtsAfter(v, pts, n - 1));
        Outcome(0, full, Conn(SeqAfter(v, c.seqNum, n), h, c.buf, 0))
      else
        var st := Staged(v, c, data, pts);
        if !TooFullToMerge(st.len) then Outcome(0, full, st)
        else if accepts == n then Outcome(-1, full, st)
        else Outcome(0, full + [st.buf[..st.len]], Conn(SeqAfter(v, st.seqNum, 1), st.header, Zeros(UdpPacketSize), 0))
  }

  /** Step (a)'s datagram: the staged bytes, a header stamped for the current
      sequence number and this frame's timestamp, and the first frame bytes,
      up to UDP_PACKET_SIZE in all. */
  function MergedDatagram(c: Conn, frame: seq<Byte>, pts: U32): seq<Byte>
    requires WellFormed(c) && MergeDefined(c, frame) && c.len > 0
  {
    c.buf[..c.len] + Stamp(c.header, c.seqNum, pts) + frame[..MergeRoom(c.len)]
  }

  /** The state after a successful merge send: counter advanced, carry-over
      buffer cleared. */
  function AfterMerge(v: Variant, c: Conn, pts: U32): Conn
    requires WellFormed(c)
  {
    Conn(SeqAfter(v, c.seqNum, 1), Stamp(c.header, c.seqNum, pts), Zeros(UdpPacketSize), 0)
  }

  /** One call of rtp_udp_push(conn, frame, |frame|, pts) against a transport
      that accepts `accepts` datagrams. */
  function Push(v: Variant, c: Conn, frame: seq<Byte>, pts: U32, accepts: nat): (o: Outcome)
    requires WellFormed(c) && MergeDefined(c, frame)
    ensures WellFormed(o.post)
  {
    if c.len == 0 then Fragment(v, c, frame, pts, accepts)
    else if accepts == 0 then Outcome(-1, [], c.(header := Stamp(c.header, c.seqNum, pts)))
    else
      var o := Fragment(v, AfterMerge(v, c, pts), Rest(c, frame), PtsAfter(v, pts, 1), accepts - 1);
      o.(sent := [MergedDatagram(c, frame, pts)] + o.sent)
  }

  /** The number of sendto calls steps (b) to (d) make on `size` bytes when
      none fails. */
  function FragmentAttempts(size: nat): nat {
    var r := PackRemainder(size);
    PackCount(size) + (if r > 0 && TooFullToMerge(r + HeaderSize) then 1 else 0)
  }

  /** The number of sendto calls a call makes when none fails. */
  function Attempts(c: Conn, frame: seq<Byte>): nat
    requires MergeDefined(c, frame)
  {
    (if c.len > 0 then 1 else 0) + FragmentAttempts(|Rest(c, frame)|)
  }

  /** The state between two calls that end in success: nothing staged, or a
      header that carries the current sequence number and the connection's
      fixed fields, followed by 1 to 1447 bytes of payload, with room left for
      a second header and at least one byte. */
  predicate Settled(c: Conn) {
    WellFormed(c) &&
    (c.len == 0 ||
     (HeaderSize + 1 <= c.len < RtpPacketSize &&
      SequenceNumber(c.buf[..HeaderSize]) == c.seqNum % 0x1_0000 &&
      c.buf[..2] == c.header[..2] && c.buf[8..HeaderSize] == c.header[8..]))
  }

  /** The frame bytes waiting in the carry-over buffer. */
  function Pending(c: Conn): seq<Byte>
    requires WellFormed(c)
  {
    if c.len <= HeaderSize then [] else c.buf[HeaderSize .. c.len]
  }

  /** The payload of a datagram with one header. */
  function Body(d: seq<Byte>): seq<Byte> {
    if |d| <= HeaderSize then [] else d[HeaderSize..]
  }

  function Bodies(ds: seq<seq<Byte>>): seq<Byte> {
    if ds == [] then [] else Body(ds[0]) + Bodies(ds[1..])
  }

  /** The payload of a merged datagram whose second header starts at offset
      `len`: the staged tail after the first header, the new frame's bytes
      after the second. */
  function MergedBody(d: seq<Byte>, len: nat): seq<Byte> {
    if HeaderSize <= len && len + HeaderSize <= |d| then d[HeaderSize..len] + d[len + HeaderSize..]
    else Body(d)
  }

  /** The frame payload carried by the datagrams of one call that started with
      `len` staged bytes. */
  function CallPayload(len: nat, ds: seq<seq<Byte>>): seq<Byte> {
    if len > 0 && ds != [] then MergedBody(ds[0], len) + Bodies(ds[1..]) else Bodies(ds)
  }

  /** The uint8_t counter of step (b) does not wrap. */
  predicate NoTruncation(c: Conn, frame: seq<Byte>)
    requires MergeDefined(c, frame)
  {
    PackQuotient(|Rest(c, frame)|) < 256
  }

  /** The carry-over buffer a successful send of the staged tail leaves. */
  function Emptied(v: Variant, c: Conn): (e: Conn)
    requires WellFormed(c)
    ensures Settled(e) && e.len == 0 && Pending(e) == []
  {
    Conn(SeqAfter(v, c.seqNum, 1), c.header, Zeros(UdpPacketSize), 0)
  }

  /** What step (d)'s comment intends for a tail that is too full to merge:
      it is never merged. When the flush of such a tail was refused, this
      corrected call sends the tail on its own first and then goes on as
      rtp_udp_push does from an empty carry-over buffer. */
  function PushRetryingFlush(v: Variant, c: Conn, frame: seq<Byte>, pts: U32, accepts: nat): (o: Outcome)
    requires WellFormed(c) && (TooFullToMerge(c.len) || MergeDefined(c, frame))
    ensures WellFormed(o.post)
  {
    if !TooFullToMerge(c.len) then Push(v, c, frame, pts, accepts)
    else if accepts == 0 then Outcome(-1, [], c)
    else
      var o := Push(v, Emptied(v, c), frame, pts, accepts - 1);
      o.(sent := [c.buf[..c.len]] + o.sent)
  }
}
