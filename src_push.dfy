/** src/rtp_udp_push.c as an object, compiled against include/rtp_udp_push.h:
    the connection's seq_num, an `int` there, and rtp_header, together with
    the file's carry-over globals frame_data_end and frame_size_end. Unlike
    the debug/ copy it uses the fixed SSRC 123456 and increments its local
    frame_pts after the merged datagram and after every full datagram. sendto
    is the transport oracle: the socket accepts `accepts` datagrams of a call
    and fails on the next one; the datagrams it accepts are recorded in the
    ghost log `sent`. Every operation is proved against the reference
    definitions in RtpHeader and Packetizer (variant Src). The quotient and
    remainder by RTP_PACKET_SIZE are the intended ones, 1460, not the
    expansion of the unparenthesised macro, which RtpMacro models. */
module SrcPush {
  import opened RtpConfig
  import opened RtpHeader
  import opened RtpMacro
  import opened Packetizer
  import opened Buffers
  import opened HeaderBytes
  import opened PushProperties

  /** The `static uint32_t ssrc` of init_rtp. */
  const FixedSsrc: U32 := 123456

  class Pusher {
    /** conn->seq_num, a signed int that the calls only ever increment */
    var seqNum: nat
    /** conn->rtp_header */
    const rtpHeader: array<Byte>
    /** the global frame_data_end, 1472 bytes allocated at init */
    const frameDataEnd: array<Byte>
    /** the global frame_size_end */
    var frameSizeEnd: nat
    /** the datagrams sendto has accepted so far */
    ghost var sent: seq<seq<Byte>>

    ghost predicate Valid()
      reads this
    {
      rtpHeader.Length == HeaderSize && frameDataEnd.Length == UdpPacketSize
      && rtpHeader != frameDataEnd && frameSizeEnd < UdpPacketSize && seqNum <= Int32Max
    }

    /** The state the reference definition Packetizer.Push works on. */
    ghost function State(): (c: Conn)
      requires Valid()
      reads this, rtpHeader, frameDataEnd
      ensures WellFormed(c)
    {
      Conn(seqNum, rtpHeader[..], frameDataEnd[..], frameSizeEnd)
    }

    /** rtp_udp_push_init without the socket: init_rtp, then the carry-over
        buffer allocated and cleared. */
    constructor ()
      ensures Valid() && fresh(rtpHeader) && fresh(frameDataEnd)
      ensures State() == Conn(0, InitialHeader(FixedSsrc), Zeros(UdpPacketSize), 0)
      ensures sent == []
    {
      rtpHeader := new Byte[HeaderSize];
      frameDataEnd := new Byte[UdpPacketSize];
      seqNum := 0;
      frameSizeEnd := 0;
      sent := [];
      new;
      InitRtp();
      Clear(frameDataEnd);
    }

    /** init_rtp: seq_num = 0 and the header of RtpHeader.InitialHeader for
        the fixed SSRC. */
    method InitRtp()
      requires Valid()
      modifies this, rtpHeader
      ensures Valid() && seqNum == 0 && rtpHeader[..] == InitialHeader(FixedSsrc)
      ensures frameDataEnd[..] == old(frameDataEnd[..]) && frameSizeEnd == old(frameSizeEnd)
      ensures sent == old(sent)
    {
      seqNum := 0;
      WriteInitialHeader(rtpHeader, seqNum, FixedSsrc);
    }

    /** build_rtp_packet: bytes 2-7 of the header get the current counter and `pts`. */
    method BuildRtpPacket(pts: U32)
      requires Valid()
      modifies rtpHeader
      ensures rtpHeader[..] == Stamp(old(rtpHeader[..]), seqNum, pts)
    {
      WriteStamp(rtpHeader, seqNum, pts);
    }

    /** rtp_udp_push(conn, frame, |frame|, pts) with a socket that accepts
        `accepts` datagrams: returns and leaves behind what Packetizer.Push
        defines, and hands sendto exactly the datagrams it lists. The caller
        keeps the int counter from overflowing: one increment per datagram
        the socket accepts. */
    method RtpUdpPush(frame: seq<Byte>, pts: U32, accepts: nat) returns (rc: int)
      requires Valid() && MergeDefined(State(), frame)
      requires seqNum + Min(accepts, Attempts(State(), frame)) <= Int32Max
      modifies this, rtpHeader, frameDataEnd
      ensures Valid()
      ensures var o := Push(Src, old(State()), frame, pts, accepts);
              rc == o.rc && State() == o.post && sent == old(sent) + o.sent
    {
      if frameSizeEnd > 0 {
        ghost var c := State();
        rc := PushMerging(frame, pts, accepts);
        if accepts > 0 {
          PushAfterMerge(Src, c, frame, pts, accepts);
        }
      } else {
        rc := SendFragments(frame, pts, accepts);
      }
    }

    /** rtp_udp_push when a tail is staged: step (a), then, if sendto took
        the merged datagram, steps (b) to (d) on the rest of the frame. */
    method PushMerging(frame: seq<Byte>, pts: U32, accepts: nat) returns (rc: int)
      requires Valid() && MergeDefined(State(), frame) && frameSizeEnd > 0
      requires seqNum + Min(accepts, Attempts(State(), frame)) <= Int32Max
      modifies this, rtpHeader, frameDataEnd
      ensures Valid()
      ensures accepts == 0 ==> rc == -1 && sent == old(sent)
                               && State() == old(State()).(header := Stamp(old(rtpHeader[..]), seqNum, pts))
      ensures accepts > 0 ==>
                var o := Fragment(Src, AfterMerge(Src, old(State()), pts), Rest(old(State()), frame), PtsAfter(Src, pts, 1), accepts - 1);
                rc == o.rc && State() == o.post && sent == old(sent) + ([MergedDatagram(old(State()), frame, pts)] + o.sent)
    {
      ghost var c := State();
      ghost var sent0 := sent;
      var framePts := pts;
      var room := UdpPacketSize - (frameSizeEnd + HeaderSize);
      var ok := SendMerged(frame, framePts, accepts);
      if !ok {
        return -1;
      }
      framePts := (framePts + 1) % U32Modulus;
      ghost var m := State();
      ghost var sent1 := sent;
      assert m == AfterMerge(Src, c, pts) && framePts == PtsAfter(Src, pts, 1);
      assert Rest(c, frame) == frame[room..];
      rc := SendFragments(frame[room..], framePts, accepts - 1);
      ghost var o := Fragment(Src, m, frame[room..], framePts, accepts - 1);
      assert rc == o.rc && State() == o.post && sent == sent1 + o.sent;
      LogAppend(sent0, MergedDatagram(c, frame, pts), o.sent);
    }

    /** Step (a): the staged tail, a fresh header and the first frame bytes
        go out as one 1472-byte datagram; after a successful send the counter
        is advanced and the carry-over buffer cleared. */
    method SendMerged(frame: seq<Byte>, pts: U32, accepts: nat) returns (ok: bool)
      requires Valid() && MergeDefined(State(), frame) && frameSizeEnd > 0
      requires accepts > 0 ==> seqNum < Int32Max
      modifies this, rtpHeader, frameDataEnd
      ensures Valid() && ok == (accepts > 0)
      ensures ok ==> State() == AfterMerge(Src, old(State()), pts)
                     && sent == old(sent) + [MergedDatagram(old(State()), frame, pts)]
      ensures !ok ==> State() == old(State()).(header := Stamp(old(rtpHeader[..]), seqNum, pts))
                      && sent == old(sent)
    {
      ghost var c := State();
      var room := UdpPacketSize - (frameSizeEnd + HeaderSize);
      var udpPacket := new Byte[UdpPacketSize];
      ghost var u0 := udpPacket[..];
      Copy(udpPacket, 0, frameDataEnd[..frameSizeEnd]);
      ghost var u1 := udpPacket[..];
      BuildRtpPacket(pts);
      Copy(udpPacket, frameSizeEnd, rtpHeader[..]);
      ghost var u2 := udpPacket[..];
      Copy(udpPacket, frameSizeEnd + HeaderSize, frame[..room]);
      MergedBytes(c, frame, pts, u0, u1, u2, udpPacket[..]);
      if accepts == 0 {
        return false;
      }
      sent := sent + [udpPacket[..]];
      seqNum := seqNum + 1;
      Clear(frameDataEnd);
      frameSizeEnd := 0;
      return true;
    }

    /** Steps (b) to (d) of rtp_udp_push on the `data` left after the merge
        step, with `pts` the frame_pts they start from. */
    method SendFragments(data: seq<Byte>, pts: U32, accepts: nat) returns (rc: int)
      requires Valid() && seqNum + Min(accepts, FragmentAttempts(|data|)) <= Int32Max
      modifies this, rtpHeader, frameDataEnd
      ensures Valid()
      ensures var o := Fragment(Src, old(State()), data, pts, accepts);
              rc == o.rc && State() == o.post && sent == old(sent) + o.sent
    {
      ghost var c := State();
      ghost var sent0 := sent;
      var ok, frameData, left, framePts := SendFullPackets(data, pts, accepts);
      if !ok {
        return -1;
      }
      rc := StageAndFlush(data, pts, framePts, frameData, left, c, sent0, accepts);
    }

    /** Step (b): frame_size / 1460 datagrams, counted in a uint8_t, each the
        header stamped for it and the next 1460 bytes; frame_pts goes up by
        one after each. frame_size_end is set to the remainder before the
        first send; a failed send ends the loop. */
    method SendFullPackets(data: seq<Byte>, pts: U32, accepts: nat)
      returns (ok: bool, frameData: nat, left: nat, framePts: U32)
      requires Valid() && seqNum + Min(accepts, PackCount(|data|)) <= Int32Max
      modifies this, rtpHeader
      ensures Valid() && ok == (accepts >= PackCount(|data|))
      ensures !ok ==> (seqNum == SeqAfter(Src, old(seqNum), accepts)
                      && framePts == PtsAfter(Src, pts, accepts)
                      && sent == old(sent) + FullPackets(Src, old(rtpHeader[..]), old(seqNum), pts, data, accepts)
                      && rtpHeader[..] == Stamp(old(rtpHeader[..]), SeqAfter(Src, old(seqNum), accepts), PtsAfter(Src, pts, accepts)))
      ensures ok ==> (left == accepts - PackCount(|data|) && frameData == PackCount(|data|) * RtpPacketSize
                     && seqNum == SeqAfter(Src, old(seqNum), PackCount(|data|))
                     && framePts == PtsAfter(Src, pts, PackCount(|data|))
                     && sent == old(sent) + FullPackets(Src, old(rtpHeader[..]), old(seqNum), pts, data, PackCount(|data|))
                     && rtpHeader[..] == if PackCount(|data|) == 0 then old(rtpHeader[..])
                                        else Stamp(old(rtpHeader[..]), SeqAfter(Src, old(seqNum), PackCount(|data|) - 1),
                                                   PtsAfter(Src, pts, PackCount(|data|) - 1)))
      ensures frameDataEnd[..] == old(frameDataEnd[..]) && frameSizeEnd == PackRemainder(|data|)
    {
      frameSizeEnd := |data| % RtpPacketSize;
      ok, frameData, left, framePts := FullPacketLoop(data, pts, accepts, State(), sent);
    }

    /** The while loop of step (b), from the state `c` and log `sent0` it
        starts in: each pass stamps the header, fills the datagram buffer and
        sends it, then advances frame_pts; the loop stops after PackCount
        passes or at the first send the socket refuses. */
    method FullPacketLoop(data: seq<Byte>, pts: U32, accepts: nat, ghost c: Conn, ghost sent0: seq<seq<Byte>>)
      returns (ok: bool, frameData: nat, left: nat, framePts: U32)
      requires Valid() && c == State() && sent == sent0
      requires seqNum + Min(accepts, PackCount(|data|)) <= Int32Max
      modifies this, rtpHeader
      ensures Valid() && ok == (accepts >= PackCount(|data|)) && frameSizeEnd == c.len
      ensures !ok ==> (seqNum == SeqAfter(Src, c.seqNum, accepts)
                      && framePts == PtsAfter(Src, pts, accepts)
                      && sent == sent0 + FullPackets(Src, c.header, c.seqNum, pts, data, accepts)
                      && rtpHeader[..] == Stamp(c.header, SeqAfter(Src, c.seqNum, accepts), PtsAfter(Src, pts, accepts)))
      ensures ok ==> (left == accepts - PackCount(|data|) && frameData == PackCount(|data|) * RtpPacketSize
                     && seqNum == SeqAfter(Src, c.seqNum, PackCount(|data|))
                     && framePts == PtsAfter(Src, pts, PackCount(|data|))
                     && sent == sent0 + FullPackets(Src, c.header, c.seqNum, pts, data, PackCount(|data|))
                     && rtpHeader[..] == if PackCount(|data|) == 0 then c.header
                                        else Stamp(c.header, SeqAfter(Src, c.seqNum, PackCount(|data|) - 1),
                                                   PtsAfter(Src, pts, PackCount(|data|) - 1)))
    {
      var framePackNumber: nat := PackCount(|data|);
      var udpPacket := new Byte[UdpPacketSize];
      frameData := 0;
      left := accepts;
      framePts := pts;
      ghost var i: nat := 0;
      while framePackNumber > 0
        invariant Valid() && i + framePackNumber == PackCount(|data|)
        invariant frameData == i * RtpPacketSize && left + i == accepts
        invariant i * RtpPacketSize <= |data|
        invariant seqNum == SeqAfter(Src, c.seqNum, i) && framePts == PtsAfter(Src, pts, i)
        invariant sent == sent0 + FullPackets(Src, c.header, c.seqNum, pts, data, i)
        invariant rtpHeader[..] == if i == 0 then c.header
                                   else Stamp(c.header, SeqAfter(Src, c.seqNum, i - 1), PtsAfter(Src, pts, i - 1))
        invariant frameSizeEnd == c.len
      {
        PackBound(|data|, i);
        var sentOk := SendFullPacket(udpPacket, data, frameData, framePts, left, c, sent0, pts, i);
        frameData := frameData + RtpPacketSize;
        if !sentOk {
          assert i == accepts;
          return false, frameData, 0, framePts;
        }
        left := left - 1;
        framePts := (framePts + 1) % U32Modulus;
        PtsAfterAdd(Src, pts, i, 1);
        framePackNumber := framePackNumber - 1;
        i := i + 1;
      }
      assert i == PackCount(|data|);
      return true, frameData, left, framePts;
    }

    /** One pass of the full-packet loop up to its sendto: the header stamped
        for datagram `i` of the step, header and payload copied into the
        datagram buffer, and, while the socket accepts (`left > 0`), the
        datagram sent and the counter advanced. `c`, `sent0` and `pts0` are
        the state, log and timestamp the loop started from. */
    method SendFullPacket(udpPacket: array<Byte>, data: seq<Byte>, frameData: nat, framePts: U32, left: nat,
                          ghost c: Conn, ghost sent0: seq<seq<Byte>>, ghost pts0: U32, ghost i: nat) returns (ok: bool)
      requires Valid() && udpPacket.Length == UdpPacketSize && |c.header| == HeaderSize
      requires (i + 1) * RtpPacketSize <= |data| && frameData == i * RtpPacketSize
      requires seqNum == SeqAfter(Src, c.seqNum, i) && framePts == PtsAfter(Src, pts0, i)
      requires sent == sent0 + FullPackets(Src, c.header, c.seqNum, pts0, data, i)
      requires rtpHeader[..] == if i == 0 then c.header
                                else Stamp(c.header, SeqAfter(Src, c.seqNum, i - 1), PtsAfter(Src, pts0, i - 1))
      requires left > 0 ==> seqNum < Int32Max
      modifies this, rtpHeader, udpPacket
      ensures Valid() && ok == (left > 0) && frameSizeEnd == old(frameSizeEnd)
      ensures rtpHeader[..] == Stamp(c.header, SeqAfter(Src, c.seqNum, i), PtsAfter(Src, pts0, i))
      ensures ok ==> seqNum == SeqAfter(Src, c.seqNum, i + 1) && sent == sent0 + FullPackets(Src, c.header, c.seqNum, pts0, data, i + 1)
      ensures !ok ==> seqNum == old(seqNum) && sent == old(sent)
    {
      ghost var hPrev := rtpHeader[..];
      BuildRtpPacket(framePts);
      RestampedHeader(Src, c.header, hPrev, c.seqNum, pts0, i);
      FillFullPacket(udpPacket, data, frameData);
      FullPacketBytes(Src, c.header, c.seqNum, pts0, data, i, udpPacket[..]);
      if left == 0 {
        return false;
      }
      LogFullPacket(Src, c.header, c.seqNum, pts0, data, i, sent0);
      sent := sent + [udpPacket[..]];
      seqNum := seqNum + 1;
      return true;
    }

    /** The two memcpy calls of the loop body: the header, then 1460 frame
        bytes from offset `frameData`, into the datagram buffer. */
    method FillFullPacket(udpPacket: array<Byte>, data: seq<Byte>, frameData: nat)
      requires Valid() && udpPacket.Length == UdpPacketSize && frameData + RtpPacketSize <= |data|
      modifies udpPacket
      ensures udpPacket[..] == rtpHeader[..] + data[frameData .. frameData + RtpPacketSize]
    {
      Copy(udpPacket, 0, rtpHeader[..]);
      ghost var u1 := udpPacket[..];
      Copy(udpPacket, HeaderSize, data[frameData .. frameData + RtpPacketSize]);
      assert u1[..HeaderSize] == rtpHeader[..];
    }

    /** Steps (c) and (d): header and remainder are staged; the staged tail is
        flushed on its own when it leaves fewer than 13 bytes of room. `pts0`,
        `c0`, `sent0` and `accepts` are the timestamp, state, log and socket
        budget the fragment steps started from, `framePts` the timestamp the
        loop left, `frameData` is how far it advanced into `data`, and `left`
        is what the socket still accepts. */
    method StageAndFlush(data: seq<Byte>, ghost pts0: U32, framePts: U32, frameData: nat, left: nat,
                         ghost c0: Conn, ghost sent0: seq<seq<Byte>>, ghost accepts: nat) returns (rc: int)
      requires Valid() && |c0.header| == HeaderSize && |c0.buf| == UdpPacketSize
      requires var n := PackCount(|data|);
               accepts >= n && left == accepts - n && frameData == n * RtpPacketSize
               && seqNum == SeqAfter(Src, c0.seqNum, n) && framePts == PtsAfter(Src, pts0, n)
               && rtpHeader[..] == (if n == 0 then c0.header
                                    else Stamp(c0.header, SeqAfter(Src, c0.seqNum, n - 1), PtsAfter(Src, pts0, n - 1)))
               && frameDataEnd[..] == c0.buf && frameSizeEnd == PackRemainder(|data|)
               && sent == sent0 + FullPackets(Src, c0.header, c0.seqNum, pts0, data, n)
      requires c0.seqNum + Min(accepts, FragmentAttempts(|data|)) <= Int32Max
      modifies this, rtpHeader, frameDataEnd
      ensures Valid()
      ensures var o := Fragment(Src, c0, data, pts0, accepts);
              rc == o.rc && State() == o.post && sent == sent0 + o.sent
    {
      if frameSizeEnd > 0 {
        Stage(data, framePts, frameData, c0, pts0);
        StagedOutcome(Src, c0, data, pts0, accepts);
        rc := Flush(left);
      } else {
        WholeOutcome(Src, c0, data, pts0, accepts);
        rc := 0;
      }
    }

    /** Step (c): the header is stamped for the current counter and `framePts`
        and copied, with the `frame_size_end` left-over bytes at offset
        `frameData` of `data` behind it, over the front of the carry-over
        buffer; the result is Packetizer.Staged of the state `c0` the fragment
        steps started from. */
    method Stage(data: seq<Byte>, framePts: U32, frameData: nat, ghost c0: Conn, ghost pts0: U32)
      requires Valid() && |c0.header| == HeaderSize && |c0.buf| == UdpPacketSize
      requires var n := PackCount(|data|);
               frameData == n * RtpPacketSize && seqNum == SeqAfter(Src, c0.seqNum, n) && framePts == PtsAfter(Src, pts0, n)
               && rtpHeader[..] == (if n == 0 then c0.header
                                    else Stamp(c0.header, SeqAfter(Src, c0.seqNum, n - 1), PtsAfter(Src, pts0, n - 1)))
               && frameDataEnd[..] == c0.buf && frameSizeEnd == PackRemainder(|data|) > 0
      modifies this, rtpHeader, frameDataEnd
      ensures Valid() && sent == old(sent)
      ensures PackRemainder(|data|) > 0 && State() == Staged(Src, c0, data, pts0)
    {
      ghost var n := PackCount(|data|);
      ghost var hPrev := rtpHeader[..];
      StageBytes(data, framePts, frameData);
      RestampedHeader(Src, c0.header, hPrev, c0.seqNum, pts0, n);
      StagedState(Src, c0, data, pts0, seqNum, framePts, frameDataEnd[..]);
    }

    /** The writes of step (c): build_rtp_packet, then the header and the
        `frame_size_end` bytes at offset `frameData` of `data` copied over the
        front of the carry-over buffer. */
    method StageBytes(data: seq<Byte>, framePts: U32, frameData: nat)
      requires Valid() && 0 < frameSizeEnd < RtpPacketSize && frameData + frameSizeEnd <= |data|
      modifies this, rtpHeader, frameDataEnd
      ensures Valid() && seqNum == old(seqNum) && sent == old(sent)
      ensures rtpHeader[..] == Stamp(old(rtpHeader[..]), seqNum, framePts)
      ensures frameDataEnd[..] == rtpHeader[..] + data[frameData .. frameData + old(frameSizeEnd)]
                                  + old(frameDataEnd[..])[HeaderSize + old(frameSizeEnd)..]
      ensures frameSizeEnd == old(frameSizeEnd) + HeaderSize
    {
      BuildRtpPacket(framePts);
      ghost var b0 := frameDataEnd[..];
      Copy(frameDataEnd, 0, rtpHeader[..]);
      ghost var b1 := frameDataEnd[..];
      Copy(frameDataEnd, HeaderSize, data[frameData .. frameData + frameSizeEnd]);
      assert b1[..HeaderSize] == rtpHeader[..];
      assert b1[HeaderSize + frameSizeEnd..] == b0[HeaderSize + frameSizeEnd..];
      frameSizeEnd := frameSizeEnd + HeaderSize;
    }

    /** Step (d): a staged tail that leaves fewer than 13 bytes of room is sent
        on its own, the counter advanced (frame_pts is not) and the buffer
        cleared; `left` is what the socket still accepts. */
    method Flush(left: nat) returns (rc: int)
      requires Valid() && (TooFullToMerge(frameSizeEnd) && left > 0 ==> seqNum < Int32Max)
      modifies this, frameDataEnd
      ensures Valid()
      ensures var c := old(State());
              if !TooFullToMerge(c.len) then rc == 0 && State() == c && sent == old(sent)
              else if left == 0 then rc == -1 && State() == c && sent == old(sent)
              else rc == 0 && sent == old(sent) + [c.buf[..c.len]]
                   && State() == Conn(SeqAfter(Src, c.seqNum, 1), c.header, Zeros(UdpPacketSize), 0)
    {
      if frameSizeEnd > 0 && UdpPacketSize - frameSizeEnd < HeaderSize + 1 {
        if left == 0 {
          return -1;
        }
        sent := sent + [frameDataEnd[..frameSizeEnd]];
        seqNum := seqNum + 1;
        Clear(frameDataEnd);
        frameSizeEnd := 0;
      }
      return 0;
    }
  }
}
