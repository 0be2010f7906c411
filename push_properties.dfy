/** What one call of rtp_udp_push does, proved about the reference definition
    Packetizer.Push: how many datagrams it sends, their sizes, sequence
    numbers and timestamps, the state it leaves behind on success and on each
    kind of failure, and that every frame byte is carried exactly once, in
    order. */
module PushProperties {
  import opened RtpConfig
  import opened RtpHeader
  import opened Packetizer

  // ---------------------------------------------------------------------
  // Arithmetic of the counters

  lemma AddMod64(a: nat, b: nat)
    ensures (a % U64Modulus + b) % U64Modulus == (a + b) % U64Modulus
  {
    var q := a / U64Modulus;
    var t := a % U64Modulus + b;
    assert a + b == t + q * U64Modulus;
    assert (t + q * U64Modulus) % U64Modulus == t % U64Modulus;
  }

  lemma AddMod32(a: nat, b: nat)
    ensures (a % U32Modulus + b) % U32Modulus == (a + b) % U32Modulus
  {
    var q := a / U32Modulus;
    var t := a % U32Modulus + b;
    assert a + b == t + q * U32Modulus;
    assert (t + q * U32Modulus) % U32Modulus == t % U32Modulus;
  }

  /** k increments after j increments are j + k increments. */
  lemma SeqAfterAdd(v: Variant, s: nat, j: nat, k: nat)
    ensures SeqAfter(v, SeqAfter(v, s, j), k) == SeqAfter(v, s, j + k)
  {
    if v == Debug { AddMod64(s + j, k); }
  }

  lemma PtsAfterAdd(v: Variant, pts: U32, j: nat, k: nat)
    ensures PtsAfter(v, PtsAfter(v, pts, j), k) == PtsAfter(v, pts, j + k)
  {
    if v == Src { AddMod32(pts + j, k); }
  }

  /** The wire field sees the counter modulo 2^16 in both variants. */
  lemma SeqAfterWire(v: Variant, s: nat, k: nat)
    ensures SeqAfter(v, s, k) % 0x1_0000 == (s + k) % 0x1_0000
  {
    if v == Debug {
      var t := s + k;
      var q := t / U64Modulus;
      var r := t % U64Modulus;
      assert t == q * U64Modulus + r;
      assert q * U64Modulus == (q * 0x1_0000_0000_0000) * 0x1_0000;
      DropMultiple(q * 0x1_0000_0000_0000, r);
    }
  }

  lemma DropMultiple(a: nat, b: nat)
    ensures (a * 0x1_0000 + b) % 0x1_0000 == b % 0x1_0000
  {
  }

  // ---------------------------------------------------------------------
  // The full datagrams of step (b)

  lemma {:induction false} FullPacketsLength(v: Variant, h: seq<Byte>, s: nat, pts: U32, data: seq<Byte>, k: nat)
    requires |h| == HeaderSize && k * RtpPacketSize <= |data|
    ensures |FullPackets(v, h, s, pts, data, k)| == k
  {
    if k > 0 { FullPacketsLength(v, h, s, pts, data, k - 1); }
  }

  lemma {:induction false} FullPacketsIndex(v: Variant, h: seq<Byte>, s: nat, pts: U32, data: seq<Byte>, k: nat)
    requires |h| == HeaderSize && k * RtpPacketSize <= |data|
    ensures |FullPackets(v, h, s, pts, data, k)| == k
    ensures forall i :: 0 <= i < k ==> FullPackets(v, h, s, pts, data, k)[i] == FullPacket(v, h, s, pts, data, i)
  {
    if k > 0 { FullPacketsIndex(v, h, s, pts, data, k - 1); }
  }

  lemma {:induction false} BodiesAppend(a: seq<seq<Byte>>, b: seq<seq<Byte>>)
    ensures Bodies(a + b) == Bodies(a) + Bodies(b)
  {
    if a == [] {
      assert a + b == b;
    } else {
      assert (a + b)[1..] == a[1..] + b;
      BodiesAppend(a[1..], b);
    }
  }

  /** The k full datagrams carry the first k * 1460 bytes, in order. */
  lemma {:induction false} BodiesOfFullPackets(v: Variant, h: seq<Byte>, s: nat, pts: U32, data: seq<Byte>, k: nat)
    requires |h| == HeaderSize && k * RtpPacketSize <= |data|
    ensures Bodies(FullPackets(v, h, s, pts, data, k)) == data[..k * RtpPacketSize]
  {
    if k > 0 {
      var lo := (k - 1) * RtpPacketSize;
      var hi := k * RtpPacketSize;
      assert hi == lo + RtpPacketSize;
      var last := FullPacket(v, h, s, pts, data, k - 1);
      var front := FullPackets(v, h, s, pts, data, k - 1);
      assert FullPackets(v, h, s, pts, data, k) == front + [last];
      calc {
        Bodies(front + [last]);
      == { BodiesAppend(front, [last]); }
        Bodies(front) + Bodies([last]);
      == { BodiesOfFullPackets(v, h, s, pts, data, k - 1); BodiesSingle(last); FullPacketBody(v, h, s, pts, data, k - 1); }
        data[..lo] + data[lo .. hi];
      == { SliceJoin(data, lo, hi); }
        data[..hi];
      }
    }
  }

  lemma SliceJoin(data: seq<Byte>, lo: nat, hi: nat)
    requires lo <= hi <= |data|
    ensures data[..lo] + data[lo .. hi] == data[..hi]
  {
  }

  lemma BodiesSingle(d: seq<Byte>)
    ensures Bodies([d]) == Body(d)
  {
    assert [d][1..] == [];
  }

  lemma FullPacketBody(v: Variant, h: seq<Byte>, s: nat, pts: U32, data: seq<Byte>, i: nat)
    requires |h| == HeaderSize && (i + 1) * RtpPacketSize <= |data|
    ensures Body(FullPacket(v, h, s, pts, data, i)) == data[i * RtpPacketSize .. (i + 1) * RtpPacketSize]
  {
    var x := Stamp(h, SeqAfter(v, s, i), PtsAfter(v, pts, i));
    var y := data[i * RtpPacketSize .. (i + 1) * RtpPacketSize];
    assert (x + y)[|x|..] == y;
  }

  // ---------------------------------------------------------------------
  // Steps (b) to (d)

  lemma FragmentCount(v: Variant, c: Conn, data: seq<Byte>, pts: U32, accepts: nat)
    requires |c.header| == HeaderSize && |c.buf| == UdpPacketSize
    ensures var o := Fragment(v, c, data, pts, accepts);
            var t := FragmentAttempts(|data|);
            |o.sent| == Min(accepts, t) && (o.rc == 0 <==> accepts >= t) && (o.rc == 0 || o.rc == -1)
            && o.post.seqNum == SeqAfter(v, c.seqNum, |o.sent|)
  {
    var n := PackCount(|data|);
    FullPacketsLength(v, c.header, c.seqNum, pts, data, Min(accepts, n));
    var r := PackRemainder(|data|);
    if accepts >= n && r > 0 && TooFullToMerge(r + HeaderSize) && accepts > n {
      SeqAfterAdd(v, c.seqNum, n, 1);
    }
  }

  /** Step (c)'s buffer: the fresh header, then the bytes after the last
      full payload. */
  lemma StagedLayout(v: Variant, c: Conn, data: seq<Byte>, pts: U32)
    requires |c.header| == HeaderSize && |c.buf| == UdpPacketSize
    requires PackRemainder(|data|) > 0
    ensures var st := Staged(v, c, data, pts);
            var n := PackCount(|data|);
            st.seqNum == SeqAfter(v, c.seqNum, n)
            && st.header == Stamp(c.header, st.seqNum, PtsAfter(v, pts, n))
            && st.buf[..HeaderSize] == st.header
            && st.buf[HeaderSize .. st.len] == data[n * RtpPacketSize .. n * RtpPacketSize + PackRemainder(|data|)]
            && Pending(st) == data[n * RtpPacketSize .. n * RtpPacketSize + PackRemainder(|data|)]
  {
    var n := PackCount(|data|);
    var r := PackRemainder(|data|);
    assert n * RtpPacketSize + r <= |data|;
    var st := Staged(v, c, data, pts);
    var tail := data[n * RtpPacketSize .. n * RtpPacketSize + r];
    assert st.buf == st.header + tail + c.buf[r + HeaderSize ..];
    assert st.buf[HeaderSize .. st.len] == tail;
  }

  lemma FragmentConserves(v: Variant, c: Conn, data: seq<Byte>, pts: U32, accepts: nat)
    requires |c.header| == HeaderSize && |c.buf| == UdpPacketSize
    requires PackQuotient(|data|) < 256
    requires Fragment(v, c, data, pts, accepts).rc == 0
    ensures var o := Fragment(v, c, data, pts, accepts);
            Bodies(o.sent) + Pending(o.post) == data
  {
    var o := Fragment(v, c, data, pts, accepts);
    var n := PackCount(|data|);
    var r := PackRemainder(|data|);
    var full := FullPackets(v, c.header, c.seqNum, pts, data, n);
    BodiesOfFullPackets(v, c.header, c.seqNum, pts, data, n);
    assert n * RtpPacketSize + r == |data|;
    if r == 0 {
      assert data[..n * RtpPacketSize] == data;
    } else {
      var st := Staged(v, c, data, pts);
      StagedLayout(v, c, data, pts);
      var tail := data[n * RtpPacketSize .. n * RtpPacketSize + r];
      assert data[..n * RtpPacketSize] + tail == data;
      if TooFullToMerge(st.len) {
        var d := st.buf[..st.len];
        assert o.sent == full + [d];
        BodiesAppend(full, [d]);
        assert d[HeaderSize..] == st.buf[HeaderSize .. st.len];
        assert Bodies([d]) == Body(d);
      }
    }
  }

  lemma FragmentSettles(v: Variant, c: Conn, data: seq<Byte>, pts: U32, accepts: nat)
    requires |c.header| == HeaderSize && |c.buf| == UdpPacketSize
    requires Fragment(v, c, data, pts, accepts).rc == 0
    ensures Settled(Fragment(v, c, data, pts, accepts).post)
  {
    var n := PackCount(|data|);
    var r := PackRemainder(|data|);
    if r > 0 && accepts >= n && !TooFullToMerge(r + HeaderSize) {
      StagedOutcome(v, c, data, pts, accepts);
      StagedSettled(v, c, data, pts);
    }
  }

  /** A staged tail that is not flushed is a settled state. */
  lemma StagedSettled(v: Variant, c: Conn, data: seq<Byte>, pts: U32)
    requires |c.header| == HeaderSize && |c.buf| == UdpPacketSize
    requires PackRemainder(|data|) > 0 && !TooFullToMerge(PackRemainder(|data|) + HeaderSize)
    ensures Settled(Staged(v, c, data, pts))
  {
    var st := Staged(v, c, data, pts);
    StagedLayout(v, c, data, pts);
    StampFields(c.header, st.seqNum, PtsAfter(v, pts, PackCount(|data|)));
    assert st.buf[..2] == st.buf[..HeaderSize][..2];
    assert st.buf[8..HeaderSize] == st.buf[..HeaderSize][8..];
  }

  /** The datagrams of steps (b) to (d): the full ones that were accepted,
      then the forced flush when it happened. */
  lemma FragmentSent(v: Variant, c: Conn, data: seq<Byte>, pts: U32, accepts: nat)
    requires |c.header| == HeaderSize && |c.buf| == UdpPacketSize
    ensures var n := PackCount(|data|);
            var r := PackRemainder(|data|);
            var full := FullPackets(v, c.header, c.seqNum, pts, data, Min(accepts, n));
            var sent := Fragment(v, c, data, pts, accepts).sent;
            (accepts > n && r > 0 && TooFullToMerge(r + HeaderSize) ==>
               sent == full + [Staged(v, c, data, pts).buf[..r + HeaderSize]])
            && (!(accepts > n && r > 0 && TooFullToMerge(r + HeaderSize)) ==> sent == full)
  {
  }

  /** The staged buffer starts with the header that step (c) stamped. */
  lemma StagedHeader(v: Variant, c: Conn, data: seq<Byte>, pts: U32)
    requires |c.header| == HeaderSize && |c.buf| == UdpPacketSize
    requires PackRemainder(|data|) > 0
    ensures var st := Staged(v, c, data, pts);
            var n := PackCount(|data|);
            st.buf[..st.len][..HeaderSize] == Stamp(c.header, SeqAfter(v, c.seqNum, n), PtsAfter(v, pts, n))
  {
    var st := Staged(v, c, data, pts);
    assert st.buf[..st.len][..HeaderSize] == st.buf[..HeaderSize];
  }

  /** The size rule for the datagrams of a call whose first `full` datagrams
      are meant to be full: each carries a header and at least one byte and
      fits a UDP datagram; the first `full` are exactly 1472 bytes and any
      later one (the forced flush) at least 1460. */
  ghost predicate SizedAs(sent: seq<seq<Byte>>, full: nat) {
    forall i :: 0 <= i < |sent| ==>
      HeaderSize < |sent[i]| <= UdpPacketSize
      && (i < full ==> |sent[i]| == UdpPacketSize)
      && (i >= full ==> |sent[i]| >= RtpPacketSize)
  }

  lemma FullPacketsSized(v: Variant, h: seq<Byte>, s: nat, pts: U32, data: seq<Byte>, k: nat, n: nat)
    requires |h| == HeaderSize && k * RtpPacketSize <= |data| && k <= n
    ensures |FullPackets(v, h, s, pts, data, k)| == k
    ensures SizedAs(FullPackets(v, h, s, pts, data, k), n)
  {
    FullPacketsIndex(v, h, s, pts, data, k);
  }

  lemma SizedThenFlush(full: seq<seq<Byte>>, d: seq<Byte>, n: nat)
    requires |full| == n && SizedAs(full, n) && RtpPacketSize <= |d| <= UdpPacketSize
    ensures SizedAs(full + [d], n)
  {
    var sent := full + [d];
    forall i | 0 <= i < |sent|
      ensures HeaderSize < |sent[i]| <= UdpPacketSize
      ensures i < n ==> |sent[i]| == UdpPacketSize
      ensures i >= n ==> |sent[i]| >= RtpPacketSize
    {
      if i < n { assert sent[i] == full[i]; } else { assert sent[i] == d; }
    }
  }

  lemma SizedAfterMerge(d: seq<Byte>, s1: seq<seq<Byte>>, n: nat)
    requires |d| == UdpPacketSize && SizedAs(s1, n)
    ensures SizedAs([d] + s1, n + 1)
  {
    var sent := [d] + s1;
    forall i | 0 <= i < |sent|
      ensures HeaderSize < |sent[i]| <= UdpPacketSize
      ensures i < n + 1 ==> |sent[i]| == UdpPacketSize
      ensures i >= n + 1 ==> |sent[i]| >= RtpPacketSize
    {
      if i > 0 { assert sent[i] == s1[i - 1]; }
    }
  }

  lemma FragmentSizes(v: Variant, c: Conn, data: seq<Byte>, pts: U32, accepts: nat)
    requires |c.header| == HeaderSize && |c.buf| == UdpPacketSize
    ensures SizedAs(Fragment(v, c, data, pts, accepts).sent, PackCount(|data|))
  {
    var n := PackCount(|data|);
    var r := PackRemainder(|data|);
    var k := Min(accepts, n);
    var full := FullPackets(v, c.header, c.seqNum, pts, data, k);
    FullPacketsSized(v, c.header, c.seqNum, pts, data, k, n);
    var sent := Fragment(v, c, data, pts, accepts).sent;
    if accepts > n && r > 0 && TooFullToMerge(r + HeaderSize) {
      var d := Staged(v, c, data, pts).buf[..r + HeaderSize];
      SizedThenFlush(full, d, n);
      assert sent == full + [d];
    } else {
      assert sent == full;
    }
  }

  // ---------------------------------------------------------------------
  // One call

  /** How many datagrams a call sends, and when it fails: with a transport
      that accepts `accepts` datagrams the call sends the first
      min(accepts, Attempts) of them and succeeds exactly when it could send
      them all; seq_num rises by exactly one per datagram sent. */
  lemma SendCount(v: Variant, c: Conn, frame: seq<Byte>, pts: U32, accepts: nat)
    requires WellFormed(c) && MergeDefined(c, frame) && c.seqNum < U64Modulus
    ensures var o := Push(v, c, frame, pts, accepts);
            |o.sent| == Min(accepts, Attempts(c, frame))
            && (o.rc == 0 <==> accepts >= Attempts(c, frame))
            && (o.rc == 0 || o.rc == -1)
            && o.post.seqNum == SeqAfter(v, c.seqNum, |o.sent|)
  {
    if c.len > 0 && accepts > 0 {
      MergeCount(v, c, frame, pts, accepts);
    } else if c.len == 0 {
      FragmentCount(v, c, frame, pts, accepts);
    }
  }

  lemma MergeCount(v: Variant, c: Conn, frame: seq<Byte>, pts: U32, accepts: nat)
    requires WellFormed(c) && MergeDefined(c, frame) && c.len > 0 && accepts > 0
    ensures var o := Fragment(v, AfterMerge(v, c, pts), Rest(c, frame), PtsAfter(v, pts, 1), accepts - 1);
            1 + |o.sent| == Min(accepts, Attempts(c, frame))
            && (o.rc == 0 <==> accepts >= Attempts(c, frame))
            && (o.rc == 0 || o.rc == -1)
            && o.post.seqNum == SeqAfter(v, c.seqNum, 1 + |o.sent|)
  {
    var c1 := AfterMerge(v, c, pts);
    FragmentCount(v, c1, Rest(c, frame), PtsAfter(v, pts, 1), accepts - 1);
    var o1 := Fragment(v, c1, Rest(c, frame), PtsAfter(v, pts, 1), accepts - 1);
    SeqAfterAdd(v, c.seqNum, 1, |o1.sent|);
  }

  /** Step (a): the merged datagram is the staged bytes, a fresh header for
      the current sequence number and timestamp, and the first
      1472 - len - 12 bytes of the frame, 1472 bytes in all. Both of its
      headers carry the same sequence number, so the connection's counter
      advances only once for two RTP headers. */
  lemma MergeLayout(v: Variant, c: Conn, frame: seq<Byte>, pts: U32, accepts: nat)
    requires Settled(c) && MergeDefined(c, frame) && c.len > 0 && accepts > 0
    ensures var o := Push(v, c, frame, pts, accepts);
            var d := o.sent[0];
            |o.sent| > 0 && |d| == UdpPacketSize
            && d[..c.len] == c.buf[..c.len]
            && d[c.len .. c.len + HeaderSize] == Stamp(c.header, c.seqNum, pts)
            && d[c.len + HeaderSize ..] == frame[..MergeRoom(c.len)]
            && SequenceNumber(d[..HeaderSize]) == SequenceNumber(d[c.len .. c.len + HeaderSize]) == c.seqNum % 0x1_0000
            && Timestamp(d[c.len .. c.len + HeaderSize]) == pts
  {
    var d := MergedDatagram(c, frame, pts);
    var h := Stamp(c.header, c.seqNum, pts);
    assert Push(v, c, frame, pts, accepts).sent[0] == d;
    assert d[..HeaderSize] == c.buf[..HeaderSize];
    assert d[c.len .. c.len + HeaderSize] == h;
    StampFields(c.header, c.seqNum, pts);
  }

  /** A failed merge send: the call returns -1 having sent nothing, and the
      staged tail, its length and the counter are untouched; only the header
      template was rebuilt, for the same sequence number. The state is still
      settled, so the next call merges the same tail. */
  lemma MergeSendFails(v: Variant, c: Conn, frame: seq<Byte>, pts: U32)
    requires WellFormed(c) && MergeDefined(c, frame) && c.len > 0
    ensures var o := Push(v, c, frame, pts, 0);
            o.rc == -1 && o.sent == []
            && o.post.seqNum == c.seqNum && o.post.buf == c.buf && o.post.len == c.len
            && o.post.header == Stamp(c.header, c.seqNum, pts)
            && (Settled(c) ==> Settled(o.post) && Pending(o.post) == Pending(c))
  {
  }

  /** A failed send in step (b): frame_size_end already holds the raw
      remainder, without a header, and the buffer was not rebuilt (it is all
      zeros after a merge). */
  lemma LoopSendFails(v: Variant, c: Conn, frame: seq<Byte>, pts: U32, accepts: nat)
    requires WellFormed(c) && MergeDefined(c, frame) && c.seqNum < U64Modulus
    requires var m := if c.len > 0 then 1 else 0;
             m <= accepts < m + PackCount(|Rest(c, frame)|)
    ensures var o := Push(v, c, frame, pts, accepts);
            o.rc == -1 && |o.sent| == accepts
            && o.post.seqNum == SeqAfter(v, c.seqNum, accepts)
            && o.post.len == PackRemainder(|Rest(c, frame)|)
            && o.post.buf == (if c.len > 0 then Zeros(UdpPacketSize) else c.buf)
  {
    SendCount(v, c, frame, pts, accepts);
  }

  /** A failed forced flush leaves 1460 or more bytes staged: the next call's
      merge step then has no room for a single frame byte, and beyond 1460 its
      length computation wraps, so no later call is defined. */
  lemma FlushSendFails(v: Variant, c: Conn, frame: seq<Byte>, pts: U32, accepts: nat)
    requires WellFormed(c) && MergeDefined(c, frame) && c.seqNum < U64Modulus
    requires Attempts(c, frame) > 0 && accepts == Attempts(c, frame) - 1
    requires var r := PackRemainder(|Rest(c, frame)|); r > 0 && TooFullToMerge(r + HeaderSize)
    ensures var o := Push(v, c, frame, pts, accepts);
            o.rc == -1 && o.post.len >= RtpPacketSize
            && (o.post.len > RtpPacketSize ==> forall f :: !MergeDefined(o.post, f))
  {
    SendCount(v, c, frame, pts, accepts);
  }

  /** The input behind a refused flush: a 1459-byte frame with nothing
      staged stages 1471 bytes, and when the socket refuses the flush they
      stay staged, so the next call's merge would write its header at
      offsets 1471 to 1482 of the 1472-byte datagram buffer. */
  lemma RefusedFlush1459(v: Variant, c: Conn, frame: seq<Byte>, pts: U32)
    requires WellFormed(c) && c.len == 0 && |frame| == 1459
    ensures var o := Push(v, c, frame, pts, 0);
            o.rc == -1 && o.sent == [] && o.post.len == 1471
            && o.post.len + HeaderSize > UdpPacketSize && TooFullToMerge(o.post.len)
  {
    assert PackQuotient(1459) == 0 && PackRemainder(1459) == 1459;
  }

  /** After a refused flush the tail is still too full to merge, so the
      corrected call PushRetryingFlush is defined for every next frame. */
  lemma RefusedFlushRetried(v: Variant, c: Conn, frame: seq<Byte>, pts: U32, accepts: nat)
    requires WellFormed(c) && MergeDefined(c, frame) && c.seqNum < U64Modulus
    requires Attempts(c, frame) > 0 && accepts == Attempts(c, frame) - 1
    requires var r := PackRemainder(|Rest(c, frame)|); r > 0 && TooFullToMerge(r + HeaderSize)
    ensures TooFullToMerge(Push(v, c, frame, pts, accepts).post.len)
  {
    FlushSendFails(v, c, frame, pts, accepts);
  }

  /** The corrected call from a tail that is too full to merge sends the
      tail on its own first and, when it succeeds, leaves a settled
      carry-over buffer. */
  lemma RetryingFlushSettles(v: Variant, c: Conn, frame: seq<Byte>, pts: U32, accepts: nat)
    requires WellFormed(c) && TooFullToMerge(c.len) && accepts > 0
    ensures var o := PushRetryingFlush(v, c, frame, pts, accepts);
            |o.sent| > 0 && o.sent[0] == c.buf[..c.len] && (o.rc == 0 ==> Settled(o.post))
  {
    var c1 := Emptied(v, c);
    var o1 := Push(v, c1, frame, pts, accepts - 1);
    assert PushRetryingFlush(v, c, frame, pts, accepts) == o1.(sent := [c.buf[..c.len]] + o1.sent);
    CallSettles(v, c1, frame, pts, accepts - 1);
  }

  /** The corrected call loses, duplicates and reorders no payload byte:
      the staged tail's payload comes first, then the frame. */
  lemma RetryingFlushConserves(v: Variant, c: Conn, frame: seq<Byte>, pts: U32, accepts: nat)
    requires WellFormed(c) && TooFullToMerge(c.len) && accepts > 0 && PackQuotient(|frame|) < 256
    requires PushRetryingFlush(v, c, frame, pts, accepts).rc == 0
    ensures var o := PushRetryingFlush(v, c, frame, pts, accepts);
            Bodies(o.sent) + Pending(o.post) == Pending(c) + frame
  {
    var c1 := Emptied(v, c);
    var o1 := Push(v, c1, frame, pts, accepts - 1);
    Conservation(v, c1, frame, pts, accepts - 1);
    TailFirst(c, o1, PushRetryingFlush(v, c, frame, pts, accepts), frame);
  }

  /** Sending a too-full tail on its own before a call that conserves
      the frame conserves the tail's payload followed by the frame. */
  lemma TailFirst(c: Conn, o1: Outcome, o: Outcome, frame: seq<Byte>)
    requires WellFormed(c) && TooFullToMerge(c.len)
    requires WellFormed(o1.post) && o.sent == [c.buf[..c.len]] + o1.sent && o.post == o1.post
    requires Bodies(o1.sent) + Pending(o1.post) == frame
    ensures Bodies(o.sent) + Pending(o.post) == Pending(c) + frame
  {
    var tail := c.buf[..c.len];
    assert ([tail] + o1.sent)[1..] == o1.sent;
    assert Body(tail) == Pending(c);
  }

  /** Step (d) keeps the carry-over invariant: after every successful call,
      nothing is staged or between 13 and 1459 bytes are, headed by a header
      for the current sequence number; so the next merge always has room for
      at least one frame byte. A failed merge keeps it too. */
  lemma CallSettles(v: Variant, c: Conn, frame: seq<Byte>, pts: U32, accepts: nat)
    requires WellFormed(c) && MergeDefined(c, frame)
    ensures var o := Push(v, c, frame, pts, accepts);
            (o.rc == 0 || (Settled(c) && c.len > 0 && accepts == 0)) ==> Settled(o.post)
  {
    var o := Push(v, c, frame, pts, accepts);
    if c.len > 0 && accepts > 0 && o.rc == 0 {
      FragmentSettles(v, AfterMerge(v, c, pts), Rest(c, frame), PtsAfter(v, pts, 1), accepts - 1);
    } else if c.len == 0 && o.rc == 0 {
      FragmentSettles(v, c, frame, pts, accepts);
    }
  }

  /** A tail that steps (b) to (d) leave staged carries the sequence number
      and timestamp of the next datagram: the ones the steps started with,
      advanced once per datagram sent before it (the timestamp in src/ only). */
  lemma FragmentStagedHeader(v: Variant, c: Conn, data: seq<Byte>, pts: U32, accepts: nat)
    requires |c.header| == HeaderSize && |c.buf| == UdpPacketSize
    requires Fragment(v, c, data, pts, accepts).rc == 0 && Fragment(v, c, data, pts, accepts).post.len > 0
    ensures var o := Fragment(v, c, data, pts, accepts);
            SequenceNumber(o.post.buf[..HeaderSize]) == SeqAfter(v, c.seqNum, |o.sent|) % 0x1_0000
            && Timestamp(o.post.buf[..HeaderSize]) == PtsAfter(v, pts, |o.sent|)
  {
    var n := PackCount(|data|);
    assert PackRemainder(|data|) > 0 && accepts >= n;
    var st := Staged(v, c, data, pts);
    StagedOutcome(v, c, data, pts, accepts);
    StagedLayout(v, c, data, pts);
    FullPacketsLength(v, c.header, c.seqNum, pts, data, n);
    StampFields(c.header, st.seqNum, PtsAfter(v, pts, n));
  }

  /** The tail a successful call leaves staged has a header carrying the
      timestamp of the next datagram of the stream: frame_pts advanced once
      per datagram the call sent in src/, and unchanged in debug/. (Its
      sequence number is the counter's, by CallSettles and SendCount.) */
  lemma CallStagedTimestamp(v: Variant, c: Conn, frame: seq<Byte>, pts: U32, accepts: nat)
    requires WellFormed(c) && MergeDefined(c, frame)
    requires Push(v, c, frame, pts, accepts).rc == 0 && Push(v, c, frame, pts, accepts).post.len > 0
    ensures var o := Push(v, c, frame, pts, accepts);
            Timestamp(o.post.buf[..HeaderSize]) == PtsAfter(v, pts, |o.sent|)
  {
    if c.len == 0 {
      FragmentStagedHeader(v, c, frame, pts, accepts);
    } else {
      var c1 := AfterMerge(v, c, pts);
      var o1 := Fragment(v, c1, Rest(c, frame), PtsAfter(v, pts, 1), accepts - 1);
      FragmentStagedHeader(v, c1, Rest(c, frame), PtsAfter(v, pts, 1), accepts - 1);
      PtsAfterAdd(v, pts, 1, |o1.sent|);
    }
  }

  /** A settled state always leaves the merge step at least one frame byte of room. */
  lemma SettledRoom(c: Conn)
    requires Settled(c) && c.len > 0
    ensures c.len + HeaderSize <= UdpPacketSize && MergeRoom(c.len) >= 1
  {
  }

  /** Conservation: from a settled state, a successful call hands every byte
      of the staged tail and of the frame, exactly once and in order, to a sent
      datagram or to the new staged tail (as long as frame_pack_number does
      not wrap). */
  /** The payload of the merged datagram: the staged frame bytes, then the
      first frame bytes of this call. */
  lemma MergedPayload(c: Conn, frame: seq<Byte>, pts: U32)
    requires Settled(c) && MergeDefined(c, frame) && c.len > 0
    ensures MergedBody(MergedDatagram(c, frame, pts), c.len) == Pending(c) + frame[..MergeRoom(c.len)]
  {
    var d := MergedDatagram(c, frame, pts);
    assert d[HeaderSize .. c.len] == c.buf[HeaderSize .. c.len];
    assert d[c.len + HeaderSize ..] == frame[..MergeRoom(c.len)];
  }

  lemma CallPayloadMerged(len: nat, d: seq<Byte>, ds: seq<seq<Byte>>)
    requires len > 0
    ensures CallPayload(len, [d] + ds) == MergedBody(d, len) + Bodies(ds)
  {
    assert ([d] + ds)[1..] == ds;
  }

  lemma MergeConserves(v: Variant, c: Conn, frame: seq<Byte>, pts: U32, accepts: nat)
    requires Settled(c) && MergeDefined(c, frame) && NoTruncation(c, frame) && c.len > 0 && accepts > 0
    requires Fragment(v, AfterMerge(v, c, pts), Rest(c, frame), PtsAfter(v, pts, 1), accepts - 1).rc == 0
    ensures var o := Fragment(v, AfterMerge(v, c, pts), Rest(c, frame), PtsAfter(v, pts, 1), accepts - 1);
            CallPayload(c.len, [MergedDatagram(c, frame, pts)] + o.sent) + Pending(o.post) == Pending(c) + frame
  {
    var rest := Rest(c, frame);
    var o := Fragment(v, AfterMerge(v, c, pts), rest, PtsAfter(v, pts, 1), accepts - 1);
    FragmentConserves(v, AfterMerge(v, c, pts), rest, PtsAfter(v, pts, 1), accepts - 1);
    var d := MergedDatagram(c, frame, pts);
    MergedPayload(c, frame, pts);
    CallPayloadMerged(c.len, d, o.sent);
    var head := frame[..MergeRoom(c.len)];
    assert head + rest == frame;
    Regroup(Pending(c), head, Bodies(o.sent), Pending(o.post));
  }

  lemma Regroup(a: seq<Byte>, b: seq<Byte>, x: seq<Byte>, y: seq<Byte>)
    ensures (a + b) + x + y == a + (b + (x + y))
  {
  }

  lemma Conservation(v: Variant, c: Conn, frame: seq<Byte>, pts: U32, accepts: nat)
    requires Settled(c) && MergeDefined(c, frame) && NoTruncation(c, frame)
    requires Push(v, c, frame, pts, accepts).rc == 0
    ensures var o := Push(v, c, frame, pts, accepts);
            CallPayload(c.len, o.sent) + Pending(o.post) == Pending(c) + frame
  {
    if c.len > 0 {
      MergeConserves(v, c, frame, pts, accepts);
    } else {
      FragmentConserves(v, c, frame, pts, accepts);
    }
  }

  /** Datagram sizes: every datagram is a header and at least one byte and
      at most 1472 bytes; the merged and full ones are exactly 1472 bytes,
      and a forced flush sends between 1460 and 1471 bytes. */
  lemma DatagramSizes(v: Variant, c: Conn, frame: seq<Byte>, pts: U32, accepts: nat)
    requires Settled(c) && MergeDefined(c, frame)
    ensures var o := Push(v, c, frame, pts, accepts);
            var full := (if c.len > 0 then 1 else 0) + PackCount(|Rest(c, frame)|);
            forall i :: 0 <= i < |o.sent| ==>
              HeaderSize < |o.sent[i]| <= UdpPacketSize
              && (i < full ==> |o.sent[i]| == UdpPacketSize)
              && (i >= full ==> |o.sent[i]| >= RtpPacketSize)
  {
    if c.len == 0 {
      FragmentSizes(v, c, frame, pts, accepts);
    } else if accepts > 0 {
      MergedSizes(v, c, frame, pts, accepts);
    }
    assert SizedAs(Push(v, c, frame, pts, accepts).sent, (if c.len > 0 then 1 else 0) + PackCount(|Rest(c, frame)|));
  }

  lemma MergedSizes(v: Variant, c: Conn, frame: seq<Byte>, pts: U32, accepts: nat)
    requires Settled(c) && MergeDefined(c, frame) && c.len > 0 && accepts > 0
    ensures SizedAs(Push(v, c, frame, pts, accepts).sent, 1 + PackCount(|Rest(c, frame)|))
  {
    var c1 := AfterMerge(v, c, pts);
    var rest := Rest(c, frame);
    var p1 := PtsAfter(v, pts, 1);
    FragmentSizes(v, c1, rest, p1, accepts - 1);
    var s1 := Fragment(v, c1, rest, p1, accepts - 1).sent;
    var d := MergedDatagram(c, frame, pts);
    SizedAfterMerge(d, s1, PackCount(|rest|));
    assert Push(v, c, frame, pts, accepts).sent == [d] + s1;
  }

  // ---------------------------------------------------------------------
  // The headers on the wire

  lemma FullPacketHeader(v: Variant, h: seq<Byte>, s: nat, pts: U32, data: seq<Byte>, i: nat)
    requires |h| == HeaderSize && (i + 1) * RtpPacketSize <= |data|
    ensures FullPacket(v, h, s, pts, data, i)[..HeaderSize] == Stamp(h, SeqAfter(v, s, i), PtsAfter(v, pts, i))
  {
    var x := Stamp(h, SeqAfter(v, s, i), PtsAfter(v, pts, i));
    var y := data[i * RtpPacketSize .. (i + 1) * RtpPacketSize];
    assert (x + y)[..|x|] == x;
  }

  /** Datagrams m, m + 1, ... of `sent` start with the header template `h`
      stamped for their own position in the call. */
  ghost predicate StampedFrom(v: Variant, h: seq<Byte>, s: nat, pts: U32, sent: seq<seq<Byte>>, m: nat)
    requires |h| == HeaderSize
  {
    forall i :: m <= i < |sent| ==>
      |sent[i]| >= HeaderSize && sent[i][..HeaderSize] == Stamp(h, SeqAfter(v, s, i), PtsAfter(v, pts, i))
  }

  /** The i-th full datagram of step (b) starts with the header stamped for
      the i-th sequence number and timestamp. */
  lemma FullPacketsHeaders(v: Variant, h: seq<Byte>, s: nat, pts: U32, data: seq<Byte>, k: nat)
    requires |h| == HeaderSize && k * RtpPacketSize <= |data|
    ensures |FullPackets(v, h, s, pts, data, k)| == k
    ensures StampedFrom(v, h, s, pts, FullPackets(v, h, s, pts, data, k), 0)
  {
    var full := FullPackets(v, h, s, pts, data, k);
    FullPacketsIndex(v, h, s, pts, data, k);
    forall i | 0 <= i < k
      ensures |full[i]| >= HeaderSize
      ensures full[i][..HeaderSize] == Stamp(h, SeqAfter(v, s, i), PtsAfter(v, pts, i))
    {
      FullPacketHeader(v, h, s, pts, data, i);
    }
  }

  /** The full datagrams followed by the forced flush, whose header continues
      the numbering. */
  lemma FullPacketsThenFlush(v: Variant, h: seq<Byte>, s: nat, pts: U32, data: seq<Byte>, k: nat, d: seq<Byte>)
    requires |h| == HeaderSize && k * RtpPacketSize <= |data|
    requires |d| >= HeaderSize && d[..HeaderSize] == Stamp(h, SeqAfter(v, s, k), PtsAfter(v, pts, k))
    ensures StampedFrom(v, h, s, pts, FullPackets(v, h, s, pts, data, k) + [d], 0)
  {
    FullPacketsHeaders(v, h, s, pts, data, k);
    StampedAppend(v, h, s, pts, FullPackets(v, h, s, pts, data, k), d);
  }

  lemma StampedAppend(v: Variant, h: seq<Byte>, s: nat, pts: U32, sent: seq<seq<Byte>>, d: seq<Byte>)
    requires |h| == HeaderSize && StampedFrom(v, h, s, pts, sent, 0)
    requires |d| >= HeaderSize && d[..HeaderSize] == Stamp(h, SeqAfter(v, s, |sent|), PtsAfter(v, pts, |sent|))
    ensures StampedFrom(v, h, s, pts, sent + [d], 0)
  {
    var t := sent + [d];
    forall i | 0 <= i < |t|
      ensures |t[i]| >= HeaderSize && t[i][..HeaderSize] == Stamp(h, SeqAfter(v, s, i), PtsAfter(v, pts, i))
    {
      if i < |sent| {
        assert t[i] == sent[i];
      } else {
        assert t[i] == d;
      }
    }
  }

  /** In steps (b) to (d), the i-th datagram starts with the header template
      stamped for the i-th sequence number and timestamp of the step. */
  lemma FragmentHeaders(v: Variant, c: Conn, data: seq<Byte>, pts: U32, accepts: nat)
    requires |c.header| == HeaderSize && |c.buf| == UdpPacketSize
    ensures StampedFrom(v, c.header, c.seqNum, pts, Fragment(v, c, data, pts, accepts).sent, 0)
  {
    var n := PackCount(|data|);
    var r := PackRemainder(|data|);
    var k := Min(accepts, n);
    var sent := Fragment(v, c, data, pts, accepts).sent;
    var full := FullPackets(v, c.header, c.seqNum, pts, data, k);
    if accepts > n && r > 0 && TooFullToMerge(r + HeaderSize) {
      StagedHeader(v, c, data, pts);
      var d := Staged(v, c, data, pts).buf[..r + HeaderSize];
      FullPacketsThenFlush(v, c.header, c.seqNum, pts, data, k, d);
      assert sent == full + [d];
    } else {
      FullPacketsHeaders(v, c.header, c.seqNum, pts, data, k);
      assert sent == full;
    }
  }

  /** Every datagram after the merged one starts with the connection's header
      template stamped for its own position in the call: sequence number
      seq_num + i, and timestamp frame_pts + i in src/ (frame_pts in debug/). */
  lemma CallHeaders(v: Variant, c: Conn, frame: seq<Byte>, pts: U32, accepts: nat)
    requires WellFormed(c) && MergeDefined(c, frame)
    ensures StampedFrom(v, c.header, c.seqNum, pts, Push(v, c, frame, pts, accepts).sent, if c.len > 0 then 1 else 0)
  {
    if c.len == 0 {
      FragmentHeaders(v, c, frame, pts, accepts);
    } else if accepts > 0 {
      var c1 := AfterMerge(v, c, pts);
      var p1 := PtsAfter(v, pts, 1);
      FragmentHeaders(v, c1, Rest(c, frame), p1, accepts - 1);
      var s1 := Fragment(v, c1, Rest(c, frame), p1, accepts - 1).sent;
      var d := MergedDatagram(c, frame, pts);
      ShiftedHeaders(v, c.header, c.seqNum, pts, d, s1);
      assert Push(v, c, frame, pts, accepts).sent == [d] + s1;
    }
  }

  /** Stamping the template left by the merge step for position j of the
      rest of the call is stamping the original for position j + 1. */
  lemma StampShift(v: Variant, h: seq<Byte>, s: nat, pts: U32, j: nat)
    requires |h| == HeaderSize
    ensures Stamp(Stamp(h, s, pts), SeqAfter(v, SeqAfter(v, s, 1), j), PtsAfter(v, PtsAfter(v, pts, 1), j))
            == Stamp(h, SeqAfter(v, s, j + 1), PtsAfter(v, pts, j + 1))
  {
    StampTwice(h, s, pts, SeqAfter(v, SeqAfter(v, s, 1), j), PtsAfter(v, PtsAfter(v, pts, 1), j));
    SeqAfterAdd(v, s, 1, j);
    PtsAfterAdd(v, pts, 1, j);
  }

  lemma ShiftedHeaders(v: Variant, h: seq<Byte>, s: nat, pts: U32, d: seq<Byte>, s1: seq<seq<Byte>>)
    requires |h| == HeaderSize
    requires StampedFrom(v, Stamp(h, s, pts), SeqAfter(v, s, 1), PtsAfter(v, pts, 1), s1, 0)
    ensures StampedFrom(v, h, s, pts, [d] + s1, 1)
  {
    var sent := [d] + s1;
    forall i | 1 <= i < |sent|
      ensures |sent[i]| >= HeaderSize
      ensures sent[i][..HeaderSize] == Stamp(h, SeqAfter(v, s, i), PtsAfter(v, pts, i))
    {
      assert sent[i] == s1[i - 1];
      StampShift(v, h, s, pts, i - 1);
    }
  }

  /** The receiver's view of a header stamped for position i of a call. */
  lemma StampedAt(v: Variant, h: seq<Byte>, s: nat, pts: U32, i: nat, d: seq<Byte>)
    requires |h| == HeaderSize && |d| >= HeaderSize
    requires d[..HeaderSize] == Stamp(h, SeqAfter(v, s, i), PtsAfter(v, pts, i))
    ensures SequenceNumber(d[..HeaderSize]) == (s + i) % 0x1_0000
    ensures d[..2] == h[..2] && d[8..HeaderSize] == h[8..]
    ensures Timestamp(d[..HeaderSize]) == PtsAfter(v, pts, i)
  {
    var x := Stamp(h, SeqAfter(v, s, i), PtsAfter(v, pts, i));
    StampFields(h, SeqAfter(v, s, i), PtsAfter(v, pts, i));
    SeqAfterWire(v, s, i);
    assert d[..2] == x[..2] && d[8..HeaderSize] == x[8..];
  }

  /** The receiver's view of datagrams whose headers are stamped for their positions. */
  lemma StampedWire(v: Variant, h: seq<Byte>, s: nat, pts: U32, sent: seq<seq<Byte>>, m: nat)
    requires |h| == HeaderSize && StampedFrom(v, h, s, pts, sent, m)
    ensures forall i :: m <= i < |sent| ==>
              |sent[i]| >= HeaderSize
              && SequenceNumber(sent[i][..HeaderSize]) == (s + i) % 0x1_0000
              && sent[i][..2] == h[..2] && sent[i][8..HeaderSize] == h[8..]
              && Timestamp(sent[i][..HeaderSize]) == PtsAfter(v, pts, i)
  {
    forall i | m <= i < |sent|
      ensures |sent[i]| >= HeaderSize
      ensures SequenceNumber(sent[i][..HeaderSize]) == (s + i) % 0x1_0000
      ensures sent[i][..2] == h[..2] && sent[i][8..HeaderSize] == h[8..]
      ensures Timestamp(sent[i][..HeaderSize]) == PtsAfter(v, pts, i)
    {
      StampedAt(v, h, s, pts, i, sent[i]);
    }
  }

  /** Datagram i of `sent` starts with a header carrying sequence number
      s + i modulo 2^16 and the version, payload type and SSRC of `h`. */
  ghost predicate ConsecutiveHeaders(h: seq<Byte>, s: nat, sent: seq<seq<Byte>>)
    requires |h| == HeaderSize
  {
    forall i :: 0 <= i < |sent| ==>
      |sent[i]| >= HeaderSize
      && SequenceNumber(sent[i][..HeaderSize]) == (s + i) % 0x1_0000
      && sent[i][..2] == h[..2] && sent[i][8..HeaderSize] == h[8..]
  }

  /** What a receiver reads from the first header of each datagram of a call
      that starts settled: consecutive sequence numbers modulo 2^16 starting
      at seq_num, and the version, payload type and SSRC of the connection. */
  lemma WireHeaders(v: Variant, c: Conn, frame: seq<Byte>, pts: U32, accepts: nat)
    requires Settled(c) && MergeDefined(c, frame)
    ensures ConsecutiveHeaders(c.header, c.seqNum, Push(v, c, frame, pts, accepts).sent)
  {
    var m := if c.len > 0 then 1 else 0;
    var sent := Push(v, c, frame, pts, accepts).sent;
    CallHeaders(v, c, frame, pts, accepts);
    if m == 1 && |sent| > 0 {
      PushFirstHeader(v, c, frame, pts, accepts);
    }
    StampedWireFrom(v, c.header, c.seqNum, pts, sent, m);
  }

  /** The timestamp of every datagram after the merged one: frame_pts plus
      the datagram's position in the call in src/, frame_pts itself in debug/. */
  lemma WireTimestamps(v: Variant, c: Conn, frame: seq<Byte>, pts: U32, accepts: nat)
    requires WellFormed(c) && MergeDefined(c, frame)
    ensures var sent := Push(v, c, frame, pts, accepts).sent;
            forall i :: (if c.len > 0 then 1 else 0) <= i < |sent| ==>
              |sent[i]| >= HeaderSize && Timestamp(sent[i][..HeaderSize]) == PtsAfter(v, pts, i)
  {
    var sent := Push(v, c, frame, pts, accepts).sent;
    CallHeaders(v, c, frame, pts, accepts);
    StampedWire(v, c.header, c.seqNum, pts, sent, if c.len > 0 then 1 else 0);
  }

  /** StampedWire, extended to a first datagram whose header the merge step
      copied from the carry-over buffer. */
  lemma StampedWireFrom(v: Variant, h: seq<Byte>, s: nat, pts: U32, sent: seq<seq<Byte>>, m: nat)
    requires |h| == HeaderSize && StampedFrom(v, h, s, pts, sent, m) && m <= 1
    requires m == 1 && |sent| > 0 ==>
               |sent[0]| >= HeaderSize && SequenceNumber(sent[0][..HeaderSize]) == s % 0x1_0000
               && sent[0][..2] == h[..2] && sent[0][8..HeaderSize] == h[8..]
    ensures ConsecutiveHeaders(h, s, sent)
  {
    StampedWire(v, h, s, pts, sent, m);
  }

  /** The first datagram of a call that merges is the merged datagram, whose
      header came from the settled carry-over buffer. */
  lemma PushFirstHeader(v: Variant, c: Conn, frame: seq<Byte>, pts: U32, accepts: nat)
    requires Settled(c) && MergeDefined(c, frame) && c.len > 0 && |Push(v, c, frame, pts, accepts).sent| > 0
    ensures var d := Push(v, c, frame, pts, accepts).sent[0];
            |d| >= HeaderSize && SequenceNumber(d[..HeaderSize]) == c.seqNum % 0x1_0000
            && d[..2] == c.header[..2] && d[8..HeaderSize] == c.header[8..]
  {
    MergedFirstHeader(c, frame, pts);
    assert Push(v, c, frame, pts, accepts).sent[0] == MergedDatagram(c, frame, pts);
  }

  lemma MergedFirstHeader(c: Conn, frame: seq<Byte>, pts: U32)
    requires Settled(c) && MergeDefined(c, frame) && c.len > 0
    ensures var d := MergedDatagram(c, frame, pts);
            |d| >= HeaderSize && d[..HeaderSize] == c.buf[..HeaderSize]
            && SequenceNumber(d[..HeaderSize]) == c.seqNum % 0x1_0000
            && d[..2] == c.header[..2] && d[8..HeaderSize] == c.header[8..]
  {
    var d := MergedDatagram(c, frame, pts);
    assert d[..HeaderSize] == c.buf[..HeaderSize];
    assert d[..2] == c.buf[..2] && d[8..HeaderSize] == c.buf[8..HeaderSize];
  }

  // ---------------------------------------------------------------------
  // Steps of the imperative code

  /** A call whose merged datagram is accepted continues with steps (b) to
      (d) on the rest of the frame, from the state after the merge. */
  lemma PushAfterMerge(v: Variant, c: Conn, frame: seq<Byte>, pts: U32, accepts: nat)
    requires WellFormed(c) && MergeDefined(c, frame) && c.len > 0 && accepts > 0
    ensures var o := Fragment(v, AfterMerge(v, c, pts), frame[MergeRoom(c.len)..], PtsAfter(v, pts, 1), accepts - 1);
            Push(v, c, frame, pts, accepts) == Outcome(o.rc, [MergedDatagram(c, frame, pts)] + o.sent, o.post)
  {
  }

  /** The log after the merged send, extended by the rest of the call. */
  lemma LogAppend(log: seq<seq<Byte>>, d: seq<Byte>, rest: seq<seq<Byte>>)
    ensures (log + [d]) + rest == log + ([d] + rest)
  {
  }

  /** A full packet i below the loop count lies inside the frame. */
  lemma PackBound(size: nat, i: nat)
    requires i < PackCount(size)
    ensures (i + 1) * RtpPacketSize <= size
  {
  }

  /** build_rtp_packet in the loop overwrites whatever the previous
      iteration stamped. */
  lemma RestampedHeader(v: Variant, h0: seq<Byte>, hPrev: seq<Byte>, s: nat, pts: U32, i: nat)
    requires |h0| == HeaderSize
    requires hPrev == if i == 0 then h0 else Stamp(h0, SeqAfter(v, s, i - 1), PtsAfter(v, pts, i - 1))
    ensures Stamp(hPrev, SeqAfter(v, s, i), PtsAfter(v, pts, i)) == Stamp(h0, SeqAfter(v, s, i), PtsAfter(v, pts, i))
  {
    if i > 0 {
      StampTwice(h0, SeqAfter(v, s, i - 1), PtsAfter(v, pts, i - 1), SeqAfter(v, s, i), PtsAfter(v, pts, i));
    }
  }

  /** The datagram one loop iteration assembles is the i-th full datagram. */
  lemma FullPacketBytes(v: Variant, h0: seq<Byte>, s: nat, pts: U32, data: seq<Byte>, i: nat, u: seq<Byte>)
    requires |h0| == HeaderSize && (i + 1) * RtpPacketSize <= |data|
    requires u == Stamp(h0, SeqAfter(v, s, i), PtsAfter(v, pts, i)) + data[i * RtpPacketSize .. i * RtpPacketSize + RtpPacketSize]
    ensures u == FullPacket(v, h0, s, pts, data, i)
  {
    assert (i + 1) * RtpPacketSize == i * RtpPacketSize + RtpPacketSize;
  }

  /** Appending the i-th full datagram to the log extends the run of full datagrams. */
  lemma LogFullPacket(v: Variant, h0: seq<Byte>, s: nat, pts: U32, data: seq<Byte>, i: nat, log: seq<seq<Byte>>)
    requires |h0| == HeaderSize && (i + 1) * RtpPacketSize <= |data|
    ensures log + FullPackets(v, h0, s, pts, data, i) + [FullPacket(v, h0, s, pts, data, i)]
            == log + FullPackets(v, h0, s, pts, data, i + 1)
  {
  }

  /** The three memcpy calls of the merge step assemble the merged datagram. */
  lemma MergedBytes(c: Conn, frame: seq<Byte>, pts: U32, u0: seq<Byte>, u1: seq<Byte>, u2: seq<Byte>, u3: seq<Byte>)
    requires WellFormed(c) && MergeDefined(c, frame) && c.len > 0 && |u0| == UdpPacketSize
    requires u1 == u0[..0] + c.buf[..c.len] + u0[c.len..]
    requires u2 == u1[..c.len] + Stamp(c.header, c.seqNum, pts) + u1[c.len + HeaderSize..]
    requires u3 == u2[..c.len + HeaderSize] + frame[..MergeRoom(c.len)] + u2[UdpPacketSize..]
    ensures u3 == MergedDatagram(c, frame, pts)
  {
    assert u2[..c.len] == c.buf[..c.len];
    assert u2[..c.len + HeaderSize] == c.buf[..c.len] + Stamp(c.header, c.seqNum, pts);
  }

  /** Step (c) leaves the staged state of Packetizer.Staged: a header stamped
      with the next counter and timestamp, the remainder behind it, and the
      rest of the old buffer. */
  lemma StagedState(v: Variant, c: Conn, data: seq<Byte>, pts: U32, s: nat, p: U32, b: seq<Byte>)
    requires |c.header| == HeaderSize && |c.buf| == UdpPacketSize && PackRemainder(|data|) > 0
    requires s == SeqAfter(v, c.seqNum, PackCount(|data|)) && p == PtsAfter(v, pts, PackCount(|data|))
    requires b == Stamp(c.header, s, p)
                  + data[PackCount(|data|) * RtpPacketSize .. PackCount(|data|) * RtpPacketSize + PackRemainder(|data|)]
                  + c.buf[HeaderSize + PackRemainder(|data|)..]
    ensures Staged(v, c, data, pts) == Conn(s, Stamp(c.header, s, p), b, PackRemainder(|data|) + HeaderSize)
  {
  }

  /** Step (b) with no remainder and every full datagram accepted is the
      whole of steps (b) to (d). */
  lemma WholeOutcome(v: Variant, c: Conn, data: seq<Byte>, pts: U32, accepts: nat)
    requires |c.header| == HeaderSize && |c.buf| == UdpPacketSize
    requires PackRemainder(|data|) == 0 && accepts >= PackCount(|data|)
    ensures var n := PackCount(|data|);
            Fragment(v, c, data, pts, accepts)
              == Outcome(0, FullPackets(v, c.header, c.seqNum, pts, data, n),
                         Conn(SeqAfter(v, c.seqNum, n),
                              if n == 0 then c.header else Stamp(c.header, SeqAfter(v, c.seqNum, n - 1), PtsAfter(v, pts, n - 1)),
                              c.buf, 0))
  {
  }

  /** Steps (c) and (d) once every full datagram went out: the staged tail is
      the outcome, unless it is too full to take a header, in which case it
      is flushed when the socket still accepts a send and fails it otherwise. */
  lemma StagedOutcome(v: Variant, c: Conn, data: seq<Byte>, pts: U32, accepts: nat)
    requires |c.header| == HeaderSize && |c.buf| == UdpPacketSize
    requires PackRemainder(|data|) > 0 && accepts >= PackCount(|data|)
    ensures var st := Staged(v, c, data, pts);
            var o := Fragment(v, c, data, pts, accepts);
            var full := FullPackets(v, c.header, c.seqNum, pts, data, PackCount(|data|));
            var flushed := TooFullToMerge(st.len) && accepts > PackCount(|data|);
            o.rc == (if TooFullToMerge(st.len) && accepts == PackCount(|data|) then -1 else 0)
            && o.sent == (if flushed then full + [st.buf[..st.len]] else full)
            && o.post == (if flushed then Conn(SeqAfter(v, st.seqNum, 1), st.header, Zeros(UdpPacketSize), 0) else st)
  {
  }

  // ---------------------------------------------------------------------
  // Worked cases

  /** A frame of 256 * 1460 bytes pushed with nothing staged: the uint8_t
      counter wraps to 0 and the remainder is 0, so the call returns 0 having
      sent nothing and staged nothing; the whole frame is lost. */
  lemma TruncationDropsFrame(v: Variant, c: Conn, frame: seq<Byte>, pts: U32, accepts: nat)
    requires WellFormed(c) && c.len == 0 && c.seqNum < U64Modulus && |frame| == 256 * RtpPacketSize
    ensures var o := Push(v, c, frame, pts, accepts);
            o.rc == 0 && o.sent == [] && o.post.len == 0 && o.post.seqNum == c.seqNum
  {
    assert PackQuotient(|frame|) == 256 by {
      var q := PackQuotient(|frame|);
      assert q * RtpPacketSize <= 256 * RtpPacketSize < (q + 1) * RtpPacketSize;
    }
    assert PackCount(|frame|) == 0;
  }

  /** A 3000-byte first frame on a fresh connection: two full datagrams go
      out with sequence numbers 0 and 1, and the last 80 bytes are staged
      behind a header carrying sequence number 2. */
  lemma FirstFrame3000(v: Variant, ssrc: U32, frame: seq<Byte>, pts: U32, accepts: nat)
    requires |frame| == 3000 && accepts >= 2
    ensures var o := Push(v, Conn(0, InitialHeader(ssrc), Zeros(UdpPacketSize), 0), frame, pts, accepts);
            o.rc == 0 && |o.sent| == 2 && o.post.seqNum == 2 && o.post.len == 92
            && o.sent[0] == Stamp(InitialHeader(ssrc), 0, pts) + frame[..RtpPacketSize]
            && o.sent[1] == Stamp(InitialHeader(ssrc), 1, PtsAfter(v, pts, 1)) + frame[RtpPacketSize .. 2 * RtpPacketSize]
            && Pending(o.post) == frame[2 * RtpPacketSize..]
  {
    var c := Conn(0, InitialHeader(ssrc), Zeros(UdpPacketSize), 0);
    assert PackQuotient(3000) == 2 && PackRemainder(3000) == 80;
    assert PackCount(|frame|) == 2;
    var h := c.header;
    assert SeqAfter(v, 0, 0) == 0 && SeqAfter(v, 0, 1) == 1 && SeqAfter(v, 0, 2) == 2;
    assert PtsAfter(v, pts, 0) == pts;
    var full := FullPackets(v, h, 0, pts, frame, 2);
    assert full == [FullPacket(v, h, 0, pts, frame, 0), FullPacket(v, h, 0, pts, frame, 1)] by {
      assert FullPackets(v, h, 0, pts, frame, 1) == [FullPacket(v, h, 0, pts, frame, 0)];
    }
    StagedLayout(v, c, frame, pts);
    var st := Staged(v, c, frame, pts);
    assert st.len == 92 && !TooFullToMerge(st.len);
    assert Push(v, c, frame, pts, accepts) == Outcome(0, full, st);
  }
}
