/** debug/rtp_udp_push.c as an object: the connection's seq_num (uint64_t)
    and rtp_header, together with the file's carry-over globals
    frame_data_end and frame_size_end, which belong to the one connection a
    process pushes on. sendto is the transport oracle: the socket accepts
    `accepts` datagrams of a call and fails on the next one; the datagrams it
    accepts are recorded in the ghost log `sent`. Every operation is proved
    against the reference definitions in RtpHeader and Packetizer. */
module DebugPush {
  import opened RtpConfig
  import opened RtpHeader
  import opened Packetizer
  import opened Buffers
  import opened HeaderBytes
  import opened PushProperties

  class Pusher {
    /** conn->seq_num */
    var seqNum: U64
    /** conn->rtp_header */
    const rtpHeader: array<Byte>
    /** the global frame_data_end, 1472 bytes allocated at init */
    const frameDataEnd: array<Byte>
    /** the global frame_size_end */
    var frameSizeEnd: nat
    /** the datagrams sendto has accepted so far */
    ghost var sent: seq<seq<Byte>>

    ghost predicate Valid()
      reads this
    {
      rtpHeader.Length == HeaderSize && frameDataEnd.Length == UdpPacketSize
      && rtpHeader != frameDataEnd && frameSizeEnd < UdpPacketSize
    }

    /** The state the reference definition Packetizer.Push works on. */
    ghost function State(): (c: Conn)
      requires Valid()
      reads this, rtpHeader, frameDataEnd
      ensures WellFormed(c)
    {
      Conn(seqNum, rtpHeader[..], frameDataEnd[..], frameSizeEnd)
    }

    /** rtp_udp_push_init without the socket: init_rtp_header with the SSRC
        that rand() would have drawn, then the carry-over buffer allocated and
        cleared. */
    constructor (ssrc: U32)
      ensures Valid() && fresh(rtpHeader) && fresh(frameDataEnd)
      ensures State() == Conn(0, InitialHeader(ssrc), Zeros(UdpPacketSize), 0)
      ensures sent == []
    {
      rtpHeader := new Byte[HeaderSize];
      frameDataEnd := new Byte[UdpPacketSize];
      seqNum := 0;
      frameSizeEnd := 0;
      sent := [];
      new;
      InitRtpHeader(ssrc);
      Clear(frameDataEnd);
    }

    /** init_rtp_header: seq_num = 0 and the header of RtpHeader.InitialHeader. */
    method InitRtpHeader(ssrc: U32)
      requires Valid()
      modifies this, rtpHeader
      ensures Valid() && seqNum == 0 && rtpHeader[..] == InitialHeader(ssrc)
      ensures frameDataEnd[..] == old(frameDataEnd[..]) && frameSizeEnd == old(frameSizeEnd)
      ensures sent == old(sent)
    {
      seqNum := 0;
      WriteInitialHeader(rtpHeader, seqNum, ssrc);
    }

    /** build_rtp_packet: bytes 2-7 of the header get the current counter and `pts`. */
    method BuildRtpPacket(pts: U32)
      requires Valid()
      modifies rtpHeader
      ensures rtpHeader[..] == Stamp(old(rtpHeader[..]), seqNum, pts)
    {
      WriteStamp(rtpHeader, seqNum, pts);
    }

    /** rtp_udp_push(conn, frame, |frame|, pts) with a socket that accepts
        `accepts` datagrams: returns and leaves behind what Packetizer.Push
        defines, and hands sendto exactly the datagrams it lists. */
    method RtpUdpPush(frame: seq<Byte>, pts: U32, accepts: nat) returns (rc: int)
      requires Valid() && MergeDefined(State(), frame)
      modifies this, rtpHeader, frameDataEnd
      ensures Valid()
      ensures var o := Push(Debug, old(State()), frame, pts, accepts);
              rc == o.rc && State() == o.post && sent == old(sent) + o.sent
    {
      if frameSizeEnd > 0 {
        ghost var c := State();
        rc := PushMerging(frame, pts, accepts);
        if accepts > 0 {
          PushAfterMerge(Debug, c, frame, pts, accepts);
        }
      } else {
        rc := SendFragments(frame, pts, accepts);
      }
    }

    /** rtp_udp_push when a tail is staged: step (a), then, if sendto took
        the merged datagram, steps (b) to (d) on the rest of the frame. */
    method PushMerging(frame: seq<Byte>, pts: U32, accepts: nat) returns (rc: int)
      requires Valid() && MergeDefined(State(), frame) && frameSizeEnd > 0
      modifies this, rtpHeader, frameDataEnd
      ensures Valid()
      ensures accepts == 0 ==> rc == -1 && sent == old(sent)
                               && State() == old(State()).(header := Stamp(old(rtpHeader[..]), seqNum, pts))
      ensures accepts > 0 ==>
                var o := Fragment(Debug, AfterMerge(Debug, old(State()), pts), Rest(old(State()), frame), PtsAfter(Debug, pts, 1), accepts - 1);
                rc == o.rc && State() == o.post && sent == old(sent) + ([MergedDatagram(old(State()), frame, pts)] + o.sent)
    {
      ghost var c := State();
      ghost var sent0 := sent;
      var room := UdpPacketSize - (frameSizeEnd + HeaderSize);
      var ok := SendMerged(frame, pts, accepts);
      if !ok {
        return -1;
      }
      ghost var m := State();
      ghost var sent1 := sent;
      assert m == AfterMerge(Debug, c, pts) && pts == PtsAfter(Debug, pts, 1);
      assert Rest(c, frame) == frame[room..];
      rc := SendFragments(frame[room..], pts, accepts - 1);
      ghost var o := Fragment(Debug, m, frame[room..], pts, accepts - 1);
      assert rc == o.rc && State() == o.post && sent == sent1 + o.sent;
      LogAppend(sent0, MergedDatagram(c, frame, pts), o.sent);
    }

    /** Step (a): the staged tail, a fresh header and the first frame bytes
        go out as one 1472-byte datagram; after a successful send the counter
        is advanced and the carry-over buffer cleared. */
    method SendMerged(frame: seq<Byte>, pts: U32, accepts: nat) returns (ok: bool)
      requires Valid() && MergeDefined(State(), frame) && frameSizeEnd > 0
      modifies this, rtpHeader, frameDataEnd
      ensures Valid() && ok == (accepts > 0)
      ensures ok ==> State() == AfterMerge(Debug, old(State()), pts)
                     && sent == old(sent) + [MergedDatagram(old(State()), frame, pts)]
      ensures !ok ==> State() == old(State()).(header := Stamp(old(rtpHeader[..]), seqNum, pts))
                      && sent == old(sent)
    {
      ghost var c := State();
      var room := UdpPacketSize - (frameSizeEnd + HeaderSize);
      var udpPacket := new Byte[UdpPacketSize];
      ghost var u0 := udpPacket[..];
      Copy(udpPacket, 0, frameDataEnd[..frameSizeEnd]);
      ghost var u1 := udpPacket[..];
      BuildRtpPacket(pts);
      Copy(udpPacket, frameSizeEnd, rtpHeader[..]);
      ghost var u2 := udpPacket[..];
      Copy(udpPacket, frameSizeEnd + HeaderSize, frame[..room]);
      MergedBytes(c, frame, pts, u0, u1, u2, udpPacket[..]);
      if accepts == 0 {
        return false;
      }
      sent := sent + [udpPacket[..]];
      seqNum := (seqNum + 1) % U64Modulus;
      Clear(frameDataEnd);
      frameSizeEnd := 0;
      return true;
    }

    /** Steps (b) to (d) of rtp_udp_push on the `data` left after the merge
        step: the full-packet loop, staging the remainder, and the forced flush. */
    method SendFragments(data: seq<Byte>, pts: U32, accepts: nat) returns (rc: int)
      requires Valid()
      modifies this, rtpHeader, frameDataEnd
      ensures Valid()
      ensures var o := Fragment(Debug, old(State()), data, pts, accepts);
              rc == o.rc && State() == o.post && sent == old(sent) + o.sent
    {
      ghost var c := State();
      ghost var sent0 := sent;
      var ok, frameData, left := SendFullPackets(data, pts, accepts);
      if !ok {
        return -1;
      }
      rc := StageAndFlush(data, pts, frameData, left, c, sent0, accepts);
    }

    /** Step (b): frame_size / 1460 datagrams, counted in a uint8_t, each the
        header stamped for it and the next 1460 bytes. frame_size_end is set to
        the remainder before the first send; a failed send ends the loop. */
    method SendFullPackets(data: seq<Byte>, pts: U32, accepts: nat) returns (ok: bool, frameData: nat, left: nat)
      requires Valid()
      modifies this, rtpHeader
      ensures Valid() && ok == (accepts >= PackCount(|data|))
      ensures !ok ==> (seqNum == SeqAfter(Debug, old(seqNum), accepts)
                      && sent == old(sent) + FullPackets(Debug, old(rtpHeader[..]), old(seqNum), pts, data, accepts)
                      && rtpHeader[..] == Stamp(old(rtpHeader[..]), SeqAfter(Debug, old(seqNum), accepts), PtsAfter(Debug, pts, accepts)))
      ensures ok ==> (left == accepts - PackCount(|data|) && frameData == PackCount(|data|) * RtpPacketSize
                     && seqNum == SeqAfter(Debug, old(seqNum), PackCount(|data|))
                     && sent == old(sent) + FullPackets(Debug, old(rtpHeader[..]), old(seqNum), pts, data, PackCount(|data|))
                     && rtpHeader[..] == if PackCount(|data|) == 0 then old(rtpHeader[..])
                                        else Stamp(old(rtpHeader[..]), SeqAfter(Debug, old(seqNum), PackCount(|data|) - 1),
                                                   PtsAfter(Debug, pts, PackCount(|data|) - 1)))
      ensures frameDataEnd[..] == old(frameDataEnd[..]) && frameSizeEnd == PackRemainder(|data|)
    {
      frameSizeEnd := |data| % RtpPacketSize;
      ok, frameData, left := FullPacketLoop(data, pts, accepts, State(), sent);
    }

    /** The while loop of step (b), from the state `c` and log `sent0` it
        starts in: each pass stamps the header, fills the datagram buffer and
        sends it; the loop stops after PackCount passes or at the first send
        the socket refuses. */
    method FullPacketLoop(data: seq<Byte>, pts: U32, accepts: nat, ghost c: Conn, ghost sent0: seq<seq<Byte>>)
      returns (ok: bool, frameData: nat, left: nat)
      requires Valid() && c == State() && sent == sent0
      modifies this, rtpHeader
      ensures Valid() && ok == (accepts >= PackCount(|data|)) && frameSizeEnd == c.len
      ensures !ok ==> (seqNum == SeqAfter(Debug, c.seqNum, accepts)
                      && sent == sent0 + FullPackets(Debug, c.header, c.seqNum, pts, data, accepts)
                      && rtpHeader[..] == Stamp(c.header, SeqAfter(Debug, c.seqNum, accepts), PtsAfter(Debug, pts, accepts)))
      ensures ok ==> (left == accepts - PackCount(|data|) && frameData == PackCount(|data|) * RtpPacketSize
                     && seqNum == SeqAfter(Debug, c.seqNum, PackCount(|data|))
                     && sent == sent0 + FullPackets(Debug, c.header, c.seqNum, pts, data, PackCount(|data|))
                     && rtpHeader[..] == if PackCount(|data|) == 0 then c.header
                                        else Stamp(c.header, SeqAfter(Debug, c.seqNum, PackCount(|data|) - 1),
                                                   PtsAfter(Debug, pts, PackCount(|data|) - 1)))
    {
      var framePackNumber: nat := PackCount(|data|);
      var udpPacket := new Byte[UdpPacketSize];
      frameData := 0;
      left := accepts;
      ghost var i: nat := 0;
      while framePackNumber > 0
        invariant Valid() && i + framePackNumber == PackCount(|data|)
        invariant frameData == i * RtpPacketSize && left + i == accepts
        invariant i * RtpPacketSize <= |data|
        invariant seqNum == SeqAfter(Debug, c.seqNum, i)
        invariant sent == sent0 + FullPackets(Debug, c.header, c.seqNum, pts, data, i)
        invariant rtpHeader[..] == if i == 0 then c.header
                                   else Stamp(c.header, SeqAfter(Debug, c.seqNum, i - 1), PtsAfter(Debug, pts, i - 1))
        invariant frameSizeEnd == c.len
      {
        PackBound(|data|, i);
        var sentOk := SendFullPacket(udpPacket, data, frameData, pts, left, c, sent0, pts, i);
        frameData := frameData + RtpPacketSize;
        if !sentOk {
          assert i == accepts;
          return false, frameData, 0;
        }
        left := left - 1;
        framePackNumber := framePackNumber - 1;
        i := i + 1;
      }
      assert i == PackCount(|data|);
      return true, frameData, left;
    }

    /** One pass of the full-packet loop up to its sendto: the header stamped
        for datagram `i` of the step, header and payload copied into the
        datagram buffer, and, while the socket accepts (`left > 0`), the
        datagram sent and the counter advanced. `c`, `sent0` and `pts0` are
        the state, log and timestamp the loop started from. */
    method SendFullPacket(udpPacket: array<Byte>, data: seq<Byte>, frameData: nat, framePts: U32, left: nat,
                          ghost c: Conn, ghost sent0: seq<seq<Byte>>, ghost pts0: U32, ghost i: nat) returns (ok: bool)
      requires Valid() && udpPacket.Length == UdpPacketSize && |c.header| == HeaderSize
      requires (i + 1) * RtpPacketSize <= |data| && frameData == i * RtpPacketSize
      requires seqNum == SeqAfter(Debug, c.seqNum, i) && framePts == PtsAfter(Debug, pts0, i)
      requires sent == sent0 + FullPackets(Debug, c.header, c.seqNum, pts0, data, i)
      requires rtpHeader[..] == if i == 0 then c.header
                                else Stamp(c.header, SeqAfter(Debug, c.seqNum, i - 1), PtsAfter(Debug, pts0, i - 1))
      modifies this, rtpHeader, udpPacket
      ensures Valid() && ok == (left > 0) && frameSizeEnd == old(frameSizeEnd)
      ensures rtpHeader[..] == Stamp(c.header, SeqAfter(Debug, c.seqNum, i), PtsAfter(Debug, pts0, i))
      ensures ok ==> seqNum == SeqAfter(Debug, c.seqNum, i + 1) && sent == sent0 + FullPackets(Debug, c.header, c.seqNum, pts0, data, i + 1)
      ensures !ok ==> seqNum == old(seqNum) && sent == old(sent)
    {
      ghost var hPrev := rtpHeader[..];
      BuildRtpPacket(framePts);
      RestampedHeader(Debug, c.header, hPrev, c.seqNum, pts0, i);
      FillFullPacket(udpPacket, data, frameData);
      FullPacketBytes(Debug, c.header, c.seqNum, pts0, data, i, udpPacket[..]);
      if left == 0 {
        return false;
      }
      LogFullPacket(Debug, c.header, c.seqNum, pts0, data, i, sent0);
      sent := sent + [udpPacket[..]];
      seqNum := (seqNum + 1) % U64Modulus;
      SeqAfterAdd(Debug, c.seqNum, i, 1);
      return true;
    }

    /** The two memcpy calls of the loop body: the header, then 1460 frame
        bytes from offset `frameData`, into the datagram buffer. */
    method FillFullPacket(udpPacket: array<Byte>, data: seq<Byte>, frameData: nat)
      requires Valid() && udpPacket.Length == UdpPacketSize && frameData + RtpPacketSize <= |data|
      modifies udpPacket
      ensures udpPacket[..] == rtpHeader[..] + data[frameData .. frameData + RtpPacketSize]
    {
      Copy(udpPacket, 0, rtpHeader[..]);
      ghost var u1 := udpPacket[..];
      Copy(udpPacket, HeaderSize, data[frameData .. frameData + RtpPacketSize]);
      assert u1[..HeaderSize] == rtpHeader[..];
    }

    /** Steps (c) and (d): header and remainder are staged; the staged tail is
        flushed on its own when it leaves fewer than 13 bytes of room. `c0`,
        `sent0` and `accepts` are the state, log and socket budget the
        fragment steps started from, `frameData` is how far the loop advanced
        into `data`, and `left` is what the socket still accepts. */
    method StageAndFlush(data: seq<Byte>, pts: U32, frameData: nat, left: nat,
                         ghost c0: Conn, ghost sent0: seq<seq<Byte>>, ghost accepts: nat) returns (rc: int)
      requires Valid() && |c0.header| == HeaderSize && |c0.buf| == UdpPacketSize
      requires var n := PackCount(|data|);
               accepts >= n && left == accepts - n && frameData == n * RtpPacketSize
               && seqNum == SeqAfter(Debug, c0.seqNum, n)
               && rtpHeader[..] == (if n == 0 then c0.header
                                    else Stamp(c0.header, SeqAfter(Debug, c0.seqNum, n - 1), PtsAfter(Debug, pts, n - 1)))
               && frameDataEnd[..] == c0.buf && frameSizeEnd == PackRemainder(|data|)
               && sent == sent0 + FullPackets(Debug, c0.header, c0.seqNum, pts, data, n)
      modifies this, rtpHeader, frameDataEnd
      ensures Valid()
      ensures var o := Fragment(Debug, c0, data, pts, accepts);
              rc == o.rc && State() == o.post && sent == sent0 + o.sent
    {
      if frameSizeEnd > 0 {
        Stage(data, pts, frameData, c0);
        StagedOutcome(Debug, c0, data, pts, accepts);
        rc := Flush(left);
      } else {
        WholeOutcome(Debug, c0, data, pts, accepts);
        rc := 0;
      }
    }

    /** Step (c): the header is stamped for the current counter and `pts`
        and copied, with the `frame_size_end` left-over bytes at offset
        `frameData` of `data` behind it, over the front of the carry-over
        buffer; the result is Packetizer.Staged of the state `c0` the fragment
        steps started from. */
    method Stage(data: seq<Byte>, pts: U32, frameData: nat, ghost c0: Conn)
      requires Valid() && |c0.header| == HeaderSize && |c0.buf| == UdpPacketSize
      requires var n := PackCount(|data|);
               frameData == n * RtpPacketSize && seqNum == SeqAfter(Debug, c0.seqNum, n)
               && rtpHeader[..] == (if n == 0 then c0.header
                                    else Stamp(c0.header, SeqAfter(Debug, c0.seqNum, n - 1), PtsAfter(Debug, pts, n - 1)))
               && frameDataEnd[..] == c0.buf && frameSizeEnd == PackRemainder(|data|) > 0
      modifies this, rtpHeader, frameDataEnd
      ensures Valid() && sent == old(sent)
      ensures PackRemainder(|data|) > 0 && State() == Staged(Debug, c0, data, pts)
    {
      ghost var n := PackCount(|data|);
      ghost var hPrev := rtpHeader[..];
      StageBytes(data, pts, frameData);
      RestampedHeader(Debug, c0.header, hPrev, c0.seqNum, pts, n);
      StagedState(Debug, c0, data, pts, seqNum, pts, frameDataEnd[..]);
    }

    /** The writes of step (c): build_rtp_packet, then the header and the
        `frame_size_end` bytes at offset `frameData` of `data` copied over the
        front of the carry-over buffer. */
    method StageBytes(data: seq<Byte>, pts: U32, frameData: nat)
      requires Valid() && 0 < frameSizeEnd < RtpPacketSize && frameData + frameSizeEnd <= |data|
      modifies this, rtpHeader, frameDataEnd
      ensures Valid() && seqNum == old(seqNum) && sent == old(sent)
      ensures rtpHeader[..] == Stamp(old(rtpHeader[..]), seqNum, pts)
      ensures frameDataEnd[..] == rtpHeader[..] + data[frameData .. frameData + old(frameSizeEnd)]
                                  + old(frameDataEnd[..])[HeaderSize + old(frameSizeEnd)..]
      ensures frameSizeEnd == old(frameSizeEnd) + HeaderSize
    {
      BuildRtpPacket(pts);
      ghost var b0 := frameDataEnd[..];
      Copy(frameDataEnd, 0, rtpHeader[..]);
      ghost var b1 := frameDataEnd[..];
      Copy(frameDataEnd, HeaderSize, data[frameData .. frameData + frameSizeEnd]);
      assert b1[..HeaderSize] == rtpHeader[..];
      assert b1[HeaderSize + frameSizeEnd..] == b0[HeaderSize + frameSizeEnd..];
      frameSizeEnd := frameSizeEnd + HeaderSize;
    }

    /** Step (d): a staged tail that leaves fewer than 13 bytes of room is sent
        on its own, the counter advanced and the buffer
        cleared; `left` is what the socket still accepts. */
    method Flush(left: nat) returns (rc: int)
      requires Valid()
      modifies this, frameDataEnd
      ensures Valid()
      ensures var c := old(State());
              if !TooFullToMerge(c.len) then rc == 0 && State() == c && sent == old(sent)
              else if left == 0 then rc == -1 && State() == c && sent == old(sent)
              else rc == 0 && sent == old(sent) + [c.buf[..c.len]]
                   && State() == Conn(SeqAfter(Debug, c.seqNum, 1), c.header, Zeros(UdpPacketSize), 0)
    {
      if frameSizeEnd > 0 && UdpPacketSize - frameSizeEnd < HeaderSize + 1 {
        if left == 0 {
          return -1;
        }
        sent := sent + [frameDataEnd[..frameSizeEnd]];
        seqNum := (seqNum + 1) % U64Modulus;
        Clear(frameDataEnd);
        frameSizeEnd := 0;
      }
      return 0;
    }
  }
}
