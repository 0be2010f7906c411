/** The byte writes both copies of rtp_udp_push.c make on conn->rtp_header,
    as methods on the 12-byte array; the connection classes call them with
    their own counter. */
module HeaderBytes {
  import opened RtpConfig
  import opened RtpHeader
  import opened Buffers

  /** The body of init_rtp_header / init_rtp after seq_num = 0: memset, the
      two fixed bytes, the counter, the static timestamp 0 and the SSRC. */
  method WriteInitialHeader(rtpHeader: array<Byte>, seqNum: nat, ssrc: U32)
    requires rtpHeader.Length == HeaderSize && seqNum == 0
    modifies rtpHeader
    ensures rtpHeader[..] == InitialHeader(ssrc)
  {
    var timestamp: U32 := 0;
    Clear(rtpHeader);
    rtpHeader[0] := 0x80;
    rtpHeader[1] := 96;
    rtpHeader[2] := (seqNum / 0x100) % 256;
    rtpHeader[3] := seqNum % 256;
    rtpHeader[4] := (timestamp / 0x100_0000) % 256;
    rtpHeader[5] := (timestamp / 0x1_0000) % 256;
    rtpHeader[6] := (timestamp / 0x100) % 256;
    rtpHeader[7] := timestamp % 256;
    rtpHeader[8] := (ssrc / 0x100_0000) % 256;
    rtpHeader[9] := (ssrc / 0x1_0000) % 256;
    rtpHeader[10] := (ssrc / 0x100) % 256;
    rtpHeader[11] := ssrc % 256;
  }

  /** The body of build_rtp_packet: bytes 2-7 get the counter (`>> 8` and
      `& 0xFF` of a non-negative value) and the four bytes of `pts`. */
  method WriteStamp(rtpHeader: array<Byte>, seqNum: nat, pts: U32)
    requires rtpHeader.Length == HeaderSize
    modifies rtpHeader
    ensures rtpHeader[..] == Stamp(old(rtpHeader[..]), seqNum, pts)
  {
    rtpHeader[2] := (seqNum / 0x100) % 256;
    rtpHeader[3] := seqNum % 256;
    rtpHeader[4] := (pts / 0x100_0000) % 256;
    rtpHeader[5] := (pts / 0x1_0000) % 256;
    rtpHeader[6] := (pts / 0x100) % 256;
    rtpHeader[7] := pts % 256;
    assert rtpHeader[..] == Stamp(old(rtpHeader[..]), seqNum, pts);
  }
}
