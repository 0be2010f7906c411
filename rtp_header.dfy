/** The 12-byte RTP fixed header kept in `conn->rtp_header` (section 5.1 of
    RFC 3550): byte 0 holds V=2, P=0, X=0, CC=0; byte 1 holds M=0 and the
    dynamic payload type 96; bytes 2-3 the sequence number, bytes 4-7 the
    timestamp and bytes 8-11 the SSRC, all big-endian. Both copies of
    rtp_udp_push.c fill it the same way, so the byte layout is defined once here;
    the decoders are how a receiver reads the fields back. */
module RtpHeader {
  import opened RtpConfig

  /** The header init_rtp_header / init_rtp writes: sequence number 0, the
      static timestamp 0, and `ssrc` shifted out byte by byte. */
  function InitialHeader(ssrc: U32): (h: seq<Byte>)
    ensures |h| == HeaderSize
  {
    [0x80, 96, 0, 0, 0, 0, 0, 0,
     (ssrc / 0x100_0000) % 256, (ssrc / 0x1_0000) % 256, (ssrc / 0x100) % 256, ssrc % 256]
  }

  /** build_rtp_packet: overwrite bytes 2-3 with `(seq_num >> 8) & 0xFF` and
      `seq_num & 0xFF`, and bytes 4-7 with the four bytes of `pts`. */
  function Stamp(h: seq<Byte>, seqNum: nat, pts: nat): (r: seq<Byte>)
    requires |h| == HeaderSize
    ensures |r| == HeaderSize
    ensures r[..2] == h[..2] && r[8..] == h[8..]
  {
    h[..2]
    + [(seqNum / 0x100) % 256, seqNum % 256,
       (pts / 0x100_0000) % 256, (pts / 0x1_0000) % 256, (pts / 0x100) % 256, pts % 256]
    + h[8..]
  }

  // Field decoders (receiver's view of section 5.1 of RFC 3550)

  function Version(h: seq<Byte>): nat requires |h| == HeaderSize { h[0] / 64 }
  function Padding(h: seq<Byte>): nat requires |h| == HeaderSize { (h[0] / 32) % 2 }
  function Extension(h: seq<Byte>): nat requires |h| == HeaderSize { (h[0] / 16) % 2 }
  function CsrcCount(h: seq<Byte>): nat requires |h| == HeaderSize { h[0] % 16 }
  function Marker(h: seq<Byte>): nat requires |h| == HeaderSize { h[1] / 128 }
  function PayloadType(h: seq<Byte>): nat requires |h| == HeaderSize { h[1] % 128 }

  function SequenceNumber(h: seq<Byte>): nat requires |h| == HeaderSize {
    (h[2] as int) * 0x100 + h[3]
  }

  function Timestamp(h: seq<Byte>): nat requires |h| == HeaderSize {
    (h[4] as int) * 0x100_0000 + (h[5] as int) * 0x1_0000 + (h[6] as int) * 0x100 + h[7]
  }

  function Ssrc(h: seq<Byte>): nat requires |h| == HeaderSize {
    (h[8] as int) * 0x100_0000 + (h[9] as int) * 0x1_0000 + (h[10] as int) * 0x100 + h[11]
  }

  /** Splitting a 32-bit value into four big-endian bytes and joining them
      again gives the value back. */
  lemma FourBytes(x: nat)
    requires x < U32Modulus
    ensures ((x / 0x100_0000) % 256) * 0x100_0000 + ((x / 0x1_0000) % 256) * 0x1_0000
            + ((x / 0x100) % 256) * 0x100 + x % 256 == x
  {
    var b3 := x % 256;
    var y := x / 256;
    var b2 := y % 256;
    var z := y / 256;
    var b1 := z % 256;
    var w := z / 256;
    assert x == y * 256 + b3;
    assert y == z * 256 + b2;
    assert z == w * 256 + b1;
    assert x == w * 0x100_0000 + b1 * 0x1_0000 + b2 * 0x100 + b3;
    assert x / 0x100 == y;
    assert x / 0x1_0000 == z;
    assert x / 0x100_0000 == w;
    assert w < 256;
  }

  /** The two sequence-number bytes carry the counter modulo 2^16. */
  lemma TwoBytes(s: nat)
    ensures ((s / 0x100) % 256) * 0x100 + s % 256 == s % 0x1_0000
  {
    var m := s % 0x1_0000;
    var k := s / 0x1_0000;
    assert s == k * 0x1_0000 + m;
    assert s / 0x100 == k * 256 + m / 256;
    assert (s / 0x100) % 256 == m / 256;
    assert s % 256 == m % 256;
  }

  /** What init_rtp_header promises: an RTP version 2 header without padding,
      extension or CSRCs, marker clear, payload type 96, sequence number and
      timestamp 0, and the given SSRC. */
  lemma InitialHeaderFields(ssrc: U32)
    ensures Version(InitialHeader(ssrc)) == 2
    ensures Padding(InitialHeader(ssrc)) == 0 && Extension(InitialHeader(ssrc)) == 0
    ensures CsrcCount(InitialHeader(ssrc)) == 0
    ensures Marker(InitialHeader(ssrc)) == 0 && PayloadType(InitialHeader(ssrc)) == 96
    ensures SequenceNumber(InitialHeader(ssrc)) == 0 && Timestamp(InitialHeader(ssrc)) == 0
    ensures Ssrc(InitialHeader(ssrc)) == ssrc
  {
    FourBytes(ssrc);
  }

  /** What build_rtp_packet promises: the header afterwards carries the low 16
      bits of the counter and the 32-bit timestamp, and every other field is as
      it was. */
  lemma StampFields(h: seq<Byte>, seqNum: nat, pts: U32)
    requires |h| == HeaderSize
    ensures SequenceNumber(Stamp(h, seqNum, pts)) == seqNum % 0x1_0000
    ensures Timestamp(Stamp(h, seqNum, pts)) == pts
    ensures Ssrc(Stamp(h, seqNum, pts)) == Ssrc(h)
    ensures Version(Stamp(h, seqNum, pts)) == Version(h) && Padding(Stamp(h, seqNum, pts)) == Padding(h)
    ensures Extension(Stamp(h, seqNum, pts)) == Extension(h) && CsrcCount(Stamp(h, seqNum, pts)) == CsrcCount(h)
    ensures Marker(Stamp(h, seqNum, pts)) == Marker(h) && PayloadType(Stamp(h, seqNum, pts)) == PayloadType(h)
  {
    TwoBytes(seqNum);
    FourBytes(pts);
    var r := Stamp(h, seqNum, pts);
    assert r[0] == h[0] && r[1] == h[1];
    assert r[8] == h[8] && r[9] == h[9] && r[10] == h[10] && r[11] == h[11];
  }

  /** Stamping only depends on the bytes it does not overwrite: a second call
      of build_rtp_packet replaces the first one's fields completely. */
  lemma StampTwice(h: seq<Byte>, s1: nat, p1: nat, s2: nat, p2: nat)
    requires |h| == HeaderSize
    ensures Stamp(Stamp(h, s1, p1), s2, p2) == Stamp(h, s2, p2)
  {
    var a := Stamp(Stamp(h, s1, p1), s2, p2);
    var b := Stamp(h, s2, p2);
    assert forall i :: 0 <= i < HeaderSize ==> a[i] == b[i];
  }

  /** Two stamps with the same counter modulo 2^16 and the same timestamp are
      the same header. */
  lemma StampSeqModulo(h: seq<Byte>, s: nat, k: nat, pts: nat)
    requires |h| == HeaderSize
    ensures Stamp(h, s + k * 0x1_0000, pts) == Stamp(h, s, pts)
  {
    var s2 := s + k * 0x1_0000;
    assert s2 / 0x100 == s / 0x100 + k * 0x100;
    assert s2 % 0x100 == s % 0x100;
    assert (s / 0x100 + k * 0x100) % 0x100 == (s / 0x100) % 0x100;
  }
}
