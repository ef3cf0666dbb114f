/** Octets and the big-endian fields that the wire formats are built from. */
module Bytes {
  type byte = b: int | 0 <= b < 0x100 witness 0
  type uint16 = n: int | 0 <= n < 0x1_0000 witness 0
  type uint32 = n: int | 0 <= n < 0x1_0000_0000 witness 0

  /** The 16-bit field at position `i`, most significant octet first. */
  function Get16(b: seq<byte>, i: nat): uint16
    requires i + 2 <= |b|
  {
    b[i] as int * 0x100 + b[i + 1]
  }

  /** The 32-bit field at position `i`, most significant octet first. */
  function Get32(b: seq<byte>, i: nat): uint32
    requires i + 4 <= |b|
  {
    Get16(b, i) as int * 0x1_0000 + Get16(b, i + 2)
  }

  /** The octets of a 16-bit field. */
  function Octets16(n: uint16): seq<byte> {
    [n / 0x100, n % 0x100]
  }

  /** The octets of a 32-bit field. */
  function Octets32(n: uint32): seq<byte> {
    Octets16(n / 0x1_0000) + Octets16(n % 0x1_0000)
  }

  /** `b` with `s` written over it from position `i`. */
  function Overwrite(b: seq<byte>, i: nat, s: seq<byte>): (r: seq<byte>)
    requires i + |s| <= |b|
    ensures |r| == |b|
    ensures forall k :: 0 <= k < i || i + |s| <= k < |b| ==> r[k] == b[k]
    ensures forall k :: 0 <= k < |s| ==> r[i + k] == s[k]
    ensures forall k :: i <= k < i + |s| ==> r[k] == s[k - i]
  {
    b[..i] + s + b[i + |s|..]
  }

  function Power2(n: nat): (p: nat)
    ensures p > 0
  {
    if n == 0 then 1 else 2 * Power2(n - 1)
  }

  /** Bit `k` is set. */
  predicate Bit(n: nat, k: nat) {
    n / Power2(k) % 2 == 1
  }
}
