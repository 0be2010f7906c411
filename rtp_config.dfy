/** Sizes and integer widths of the RTP-over-UDP pusher (debug/rtp_udp_push.h).
    RTP_PACKET_SIZE is parenthesised there, so it is 1460 wherever it is used,
    also as the right operand of `/` and `%`. */
module RtpConfig {

  /** RTP_HEADER_SIZE: the RTP fixed header of section 5.1 of RFC 3550 without CSRCs. */
  const HeaderSize: nat := 12
  /** UDP_PACKET_SIZE: the largest datagram handed to sendto. */
  const UdpPacketSize: nat := 1472
  /** RTP_PACKET_SIZE, i.e. (UDP_PACKET_SIZE - RTP_HEADER_SIZE): payload bytes
      of a full datagram. Written as a literal so that the verifier sees
      products with it as linear; PacketSizes checks the difference. */
  const RtpPacketSize: nat := 1460

  lemma PacketSizes()
    ensures RtpPacketSize == UdpPacketSize - HeaderSize
  {
  }

  /** uint8_t */
  type Byte = b: int | 0 <= b < 256
  /** uint32_t, used for frame_pts and the SSRC */
  type U32 = x: int | 0 <= x < 0x1_0000_0000
  /** uint64_t, the width of seq_num in debug/rtp_udp_push.h */
  type U64 = x: int | 0 <= x < 0x1_0000_0000_0000_0000

  const U32Modulus: nat := 0x1_0000_0000
  const U64Modulus: nat := 0x1_0000_0000_0000_0000

  /** `n` bytes of value 0, what memset(p, 0, n) leaves behind. */
  function Zeros(n: nat): (z: seq<Byte>)
    ensures |z| == n
    ensures forall i :: 0 <= i < n ==> z[i] == 0
  {
    seq(n, _ => 0)
  }

  /** frame_size / RTP_PACKET_SIZE with the parenthesised macro: the number of
      whole 1460-byte payloads in a frame of `frameSize` bytes. */
  function PackQuotient(frameSize: nat): (q: nat)
    ensures q * RtpPacketSize <= frameSize < (q + 1) * RtpPacketSize
  {
    frameSize / RtpPacketSize
  }

  /** frame_size % RTP_PACKET_SIZE with the parenthesised macro: the bytes left
      over once the whole payloads are taken out. */
  function PackRemainder(frameSize: nat): (r: nat)
    ensures r < RtpPacketSize
    ensures PackQuotient(frameSize) * RtpPacketSize + r == frameSize
  {
    frameSize % RtpPacketSize
  }
}
