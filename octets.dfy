/** Bytes and byte buffers shared by the data-link layer, the application
    layer and the host-side block packer. */
module Octets {

  /** An 8-bit unsigned value (`uint8_t` on the card, an element of `bytes` on the host). */
  type byte = bv8

  datatype Option<+T> = None | Some(value: T)

  /** Size of the card's command buffer (`command[0x110]`). */
  const COMMAND_SIZE: int := 0x110

  /** `buf` with `src` copied in at offset `at`, as `memcpy(buf + at, src, |src|)` leaves it. */
  function Overwrite(buf: seq<byte>, at: int, src: seq<byte>): (r: seq<byte>)
    requires 0 <= at && at + |src| <= |buf|
    ensures |r| == |buf|
    ensures r[at..at + |src|] == src
    ensures forall k | 0 <= k < |buf| :: r[k] == if at <= k < at + |src| then src[k - at] else buf[k]
  {
    buf[..at] + src + buf[at + |src|..]
  }

  /** `n` zero bytes, as `memset(dst, 0, n)` or Python's `bytes(n)` produce them. */
  function Zeros(n: nat): (z: seq<byte>)
    ensures |z| == n
  {
    seq(n, _ => 0)
  }

  /** `memcpy(dst + at, src, |src|)`. */
  method Memcpy(dst: array<byte>, at: int, src: seq<byte>)
    requires 0 <= at && at + |src| <= dst.Length
    modifies dst
    ensures dst[..] == Overwrite(old(dst[..]), at, src)
  {
    forall k | 0 <= k < |src| {
      dst[at + k] := src[k];
    }
    assert forall k | 0 <= k < dst.Length :: dst[..][k] == Overwrite(old(dst[..]), at, src)[k];
  }
}
