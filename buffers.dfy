/** The two libc calls the pusher uses on its byte buffers. */
module Buffers {
  import opened RtpConfig

  /** memcpy(dst + at, src, |src|): the bytes of `src` replace those at
      offsets at .. at + |src| - 1; every other byte of `dst` keeps its value. */
  method Copy(dst: array<Byte>, at: nat, src: seq<Byte>)
    requires at + |src| <= dst.Length
    modifies dst
    ensures dst[..] == old(dst[..])[..at] + src + old(dst[..])[at + |src|..]
  {
    var i := 0;
    while i < |src|
      invariant 0 <= i <= |src|
      invariant forall j :: 0 <= j < dst.Length ==>
                  dst[j] == if at <= j < at + i then src[j - at] else old(dst[j])
    {
      dst[at + i] := src[i];
      i := i + 1;
    }
    assert dst[..] == old(dst[..])[..at] + src + old(dst[..])[at + |src|..];
  }

  /** memset(dst, 0, dst.Length). */
  method Clear(dst: array<Byte>)
    modifies dst
    ensures dst[..] == Zeros(dst.Length)
  {
    var i := 0;
    while i < dst.Length
      invariant 0 <= i <= dst.Length
      invariant forall j :: 0 <= j < i ==> dst[j] == 0
    {
      dst[i] := 0;
      i := i + 1;
    }
    assert dst[..] == Zeros(dst.Length);
  }
}
