/** The header include/rtp_udp_push.h, against which src/rtp_udp_push.c is
    compiled. Its RTP_PACKET_SIZE is `UDP_PACKET_SIZE - RTP_HEADER_SIZE`
    without parentheses, so the preprocessor text `x / RTP_PACKET_SIZE` parses
    as `x / 1472 - 12` and `x % RTP_PACKET_SIZE` as `x % 1472 - 12`; only as a
    whole argument or as the right side of `+=` does it mean 1460. The
    functions below are those literal expansions in C's unsigned arithmetic.
    The packetizer model uses the intended values (RtpConfig.PackQuotient and
    RtpConfig.PackRemainder) instead. */
module RtpMacro {
  import opened RtpConfig

  /** size_t on the 32-bit ARM target; unsigned subtraction wraps modulo this. */
  const SizeTModulus: nat := 0x1_0000_0000

  /** INT_MAX: the largest value of the `int seq_num` field of this header. */
  const Int32Max: int := 0x7FFF_FFFF
  type Int32 = x: int | -0x8000_0000 <= x < 0x8000_0000

  /** `uint8_t frame_pack_number = frame_size / RTP_PACKET_SIZE;` as compiled:
      (frame_size / 1472 - 12) in size_t, then truncated to 8 bits. */
  function LiteralPackCount(frameSize: nat): (n: nat)
    ensures n < 256
  {
    ((frameSize / UdpPacketSize - HeaderSize) % SizeTModulus) % 256
  }

  /** `frame_size_end = frame_size % RTP_PACKET_SIZE;` as compiled:
      (frame_size % 1472 - 12) in size_t. */
  function LiteralRemainder(frameSize: nat): (r: nat)
    ensures r < SizeTModulus
  {
    (frameSize % UdpPacketSize - HeaderSize) % SizeTModulus
  }

  /** RTP_PACKET_SIZE used as a whole expression (the memcpy length, `frame_data += ...`). */
  function LiteralOperand(): (k: nat)
    ensures k == RtpPacketSize
  {
    UdpPacketSize - HeaderSize
  }

  /** The example of a 3000-byte frame: the compiled code computes 246 packets
      and a remainder of 44 where 2 and 80 are meant. */
  lemma Example3000()
    ensures LiteralPackCount(3000) == 246 && LiteralRemainder(3000) == 44
    ensures PackQuotient(3000) == 2 && PackRemainder(3000) == 80
  {
  }

  /** For every frame shorter than twelve UDP datagrams the subtraction goes
      negative, so the compiled loop count wraps to 244 or more, while the
      intended count is at most 12: the full-packet loop reads far past the frame. */
  lemma SmallFramesWrapCount(frameSize: nat)
    requires frameSize < HeaderSize * UdpPacketSize
    ensures LiteralPackCount(frameSize) == 256 - HeaderSize + frameSize / UdpPacketSize
    ensures LiteralPackCount(frameSize) >= 244
    ensures PackQuotient(frameSize) <= 12
    ensures LiteralPackCount(frameSize) != PackQuotient(frameSize)
  {
    var q := frameSize / UdpPacketSize;
    assert 0 <= q < 12;
    assert (q - 12) % SizeTModulus == SizeTModulus + q - 12;
    assert (SizeTModulus + q - 12) % 256 == 256 + q - 12 by {
      assert SizeTModulus + q - 12 == (SizeTModulus / 256 - 1) * 256 + (256 + q - 12);
    }
  }

  /** Whenever the remainder by 1472 is below 12 the compiled remainder wraps
      around size_t, so the staging memcpy copies nearly 4 GiB. */
  lemma SmallRemainderWraps(frameSize: nat)
    requires frameSize % UdpPacketSize < HeaderSize
    ensures LiteralRemainder(frameSize) == SizeTModulus - HeaderSize + frameSize % UdpPacketSize
    ensures LiteralRemainder(frameSize) >= SizeTModulus - HeaderSize
  {
    var m := frameSize % UdpPacketSize;
    assert (m - 12) % SizeTModulus == SizeTModulus + m - 12;
  }

  /** Otherwise the compiled remainder is the remainder by 1472 minus 12, which
      differs from the intended remainder by 1460 for every frame whose
      quotients by 1472 and by 1460 agree. */
  lemma LargeRemainderShifted(frameSize: nat)
    requires frameSize % UdpPacketSize >= HeaderSize
    ensures LiteralRemainder(frameSize) == frameSize % UdpPacketSize - HeaderSize
    ensures frameSize / UdpPacketSize == PackQuotient(frameSize) ==>
              LiteralRemainder(frameSize) != PackRemainder(frameSize)
  {
    var q := frameSize / UdpPacketSize;
    if q == PackQuotient(frameSize) {
      assert frameSize % UdpPacketSize == frameSize - q * UdpPacketSize;
      assert PackRemainder(frameSize) == frameSize - q * RtpPacketSize;
    }
  }

  /** For every other frame in size_t's range the compiled count and
      remainder stay inside the frame, and the staged tail fits the buffer,
      so the call is defined; but the full datagrams and the staged tail
      together carry fewer bytes than the frame holds, so part of the frame
      is silently dropped. */
  lemma LargeFramesDropBytes(frameSize: nat)
    requires HeaderSize * UdpPacketSize <= frameSize < SizeTModulus
    requires frameSize % UdpPacketSize >= HeaderSize
    ensures LiteralPackCount(frameSize) == (frameSize / UdpPacketSize - HeaderSize) % 256
    ensures LiteralRemainder(frameSize) == frameSize % UdpPacketSize - HeaderSize
    ensures LiteralRemainder(frameSize) + HeaderSize < UdpPacketSize
    ensures LiteralPackCount(frameSize) * RtpPacketSize + LiteralRemainder(frameSize) < frameSize
  {
    var q, m := frameSize / UdpPacketSize, frameSize % UdpPacketSize;
    var n := LiteralPackCount(frameSize);
    assert frameSize == q * UdpPacketSize + m;
    assert 12 <= q < SizeTModulus;
    assert (q - 12) % SizeTModulus == q - 12;
    assert n <= q - 12;
    calc {
      n * RtpPacketSize + (m - 12);
    <=  { assert n * RtpPacketSize <= (q - 12) * RtpPacketSize; }
      (q - 12) * RtpPacketSize + (m - 12);
    <
      q * UdpPacketSize + m;
    }
  }

  /** A 19236-byte frame: the compiled code sends one full datagram and
      stages 88 bytes, so 17688 of its bytes are never sent; 13 full
      datagrams and 256 staged bytes are meant. */
  lemma Example19236()
    ensures LiteralPackCount(19236) == 1 && LiteralRemainder(19236) == 88
    ensures 19236 - (LiteralPackCount(19236) * RtpPacketSize + LiteralRemainder(19236)) == 17688
    ensures PackQuotient(19236) == 13 && PackRemainder(19236) == 256
  {
  }
}
