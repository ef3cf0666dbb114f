/**
  `3rdparty/crow/TinySHA1.hpp`: a message goes in octet by octet, in calls of any sizes, and the digest
  is that of sections 5.1.1 and 6.1.2 of FIPS 180-4.
 */
module Sha1 {
  import opened Bytes

  // ---------------------------------------------------------------- the definition

  datatype Digest = Digest(a: bv32, b: bv32, c: bv32, d: bv32, e: bv32)

  const INITIAL: Digest := Digest(0x67452301, 0xEFCDAB89, 0x98BADCFE, 0x10325476, 0xC3D2E1F0)

  /** Section 3.2: rotation to the left. */
  function Rotl(x: bv32, n: nat): bv32
    requires n <= 32
  {
    (x << n) | (x >> (32 - n))
  }

  /** A big-endian word of a block. */
  function Word(block: seq<byte>, i: nat): bv32
    requires |block| == 64 && i < 16
  {
    ((block[4 * i] as bv32) << 24) | ((block[4 * i + 1] as bv32) << 16)
    | ((block[4 * i + 2] as bv32) << 8) | (block[4 * i + 3] as bv32)
  }

  /** The message schedule. */
  function Schedule(block: seq<byte>, t: nat): bv32
    requires |block| == 64
  {
    if t < 16 then Word(block, t)
    else Rotl(Parity4(Schedule(block, t - 3), Schedule(block, t - 8), Schedule(block, t - 14),
                      Schedule(block, t - 16)), 1)
  }

  function Parity4(x: bv32, y: bv32, z: bv32, w: bv32): bv32 {
    x ^ y ^ z ^ w
  }

  /** Section 4.1.1: choice, parity and majority. */
  function Choice(x: bv32, y: bv32, z: bv32): bv32 {
    (x & y) ^ (!x & z)
  }

  function Parity(x: bv32, y: bv32, z: bv32): bv32 {
    x ^ y ^ z
  }

  function Majority(x: bv32, y: bv32, z: bv32): bv32 {
    (x & y) ^ (x & z) ^ (y & z)
  }

  function F(t: nat, x: bv32, y: bv32, z: bv32): bv32 {
    if t < 20 then Choice(x, y, z) else if 40 <= t < 60 then Majority(x, y, z) else Parity(x, y, z)
  }

  function K(t: nat): bv32 {
    if t < 20 then 0x5A827999 else if t < 40 then 0x6ED9EBA1 else if t < 60 then 0x8F1BBCDC else 0xCA62C1D6
  }

  function Round(v: Digest, t: nat, w: bv32): Digest {
    Digest(Sum5(Rotl(v.a, 5), F(t, v.b, v.c, v.d), v.e, K(t), w), v.a, Rotl(v.b, 30), v.c, v.d)
  }

  function Sum5(a: bv32, b: bv32, c: bv32, d: bv32, e: bv32): bv32 {
    a + b + c + d + e
  }

  function Rounds(v: Digest, block: seq<byte>, t: nat): Digest
    requires |block| == 64
  {
    if t == 0 then v else Round(Rounds(v, block, t - 1), t - 1, Schedule(block, t - 1))
  }

  function Plus(x: bv32, y: bv32): bv32 {
    x + y
  }

  function Sum(x: Digest, y: Digest): Digest {
    Digest(Plus(x.a, y.a), Plus(x.b, y.b), Plus(x.c, y.c), Plus(x.d, y.d), Plus(x.e, y.e))
  }

  /** The compression function. */
  function Compress(v: Digest, block: seq<byte>): Digest
    requires |block| == 64
  {
    Sum(v, Rounds(v, block, 80))
  }

  /** All blocks, one after the other. */
  function Fold(v: Digest, data: seq<byte>): Digest
    requires |data| % 64 == 0
    decreases |data|
  {
    if data == [] then v else Compress(Fold(v, data[..|data| - 64]), data[|data| - 64..])
  }

  function Zeros(n: nat): (z: seq<byte>)
    ensures |z| == n && forall i :: 0 <= i < n ==> z[i] == 0
  {
    if n == 0 then [] else Zeros(n - 1) + [0]
  }

  /** A number in `size` octets, the most significant first. */
  function BigEndian(n: nat, size: nat): (b: seq<byte>)
    ensures |b| == size
  {
    if size == 0 then [] else BigEndian(n / 0x100, size - 1) + [n % 0x100]
  }

  /** How many zero octets make a message and the one bit end eight octets before a block does. */
  function ZerosFor(length: nat): (k: nat)
    ensures k < 64 && (length + 1 + k) % 64 == 56
  {
    if length % 64 <= 55 then 55 - length % 64 else 119 - length % 64
  }

  /** Section 5.1.1: the one bit, zeros, and the length in bits as 64 bits. */
  function Padded(message: seq<byte>): (p: seq<byte>)
    ensures |p| == |message| + 1 + ZerosFor(|message|) + 8
  {
    message + ([0x80] + Zeros(ZerosFor(|message|)) + BigEndian(|message| * 8, 8))
  }

  function Sha1(message: seq<byte>): Digest {
    assert |Padded(message)| % 64 == 0 by {
      IndexAfter(|message| + 1 + ZerosFor(|message|), 8);
    }
    Fold(INITIAL, Padded(message))
  }

  // ---------------------------------------------------------------- the class

  function LeftRotate(value: bv32, count: nat): bv32
    requires count <= 32
  {
    (value << count) ^ (value >> (32 - count))
  }

  /** For the rotations that are used, the two halves share no bit. */
  lemma RotationsAgree(value: bv32)
    ensures LeftRotate(value, 1) == Rotl(value, 1)
    ensures LeftRotate(value, 5) == Rotl(value, 5)
    ensures LeftRotate(value, 30) == Rotl(value, 30)
  {
  }

  /** The code's forms of the two functions, with `or` where the standard has exclusive `or`. */
  function CodeChoice(b: bv32, c: bv32, d: bv32): bv32 {
    (b & c) | (!b & d)
  }

  function CodeMajority(b: bv32, c: bv32, d: bv32): bv32 {
    (b & c) | (b & d) | (c & d)
  }

  lemma ChoicesAgree(b: bv32, c: bv32, d: bv32)
    ensures CodeChoice(b, c, d) == Choice(b, c, d) && CodeMajority(b, c, d) == Majority(b, c, d)
  {
    ChoiceBits(b, c, d);
    MajorityBits(b, c, d);
  }

  lemma ChoiceBits(b: bv32, c: bv32, d: bv32)
    ensures (b & c) | (!b & d) == (b & c) ^ (!b & d)
  {
  }

  lemma MajorityBits(b: bv32, c: bv32, d: bv32)
    ensures (b & c) | (b & d) | (c & d) == (b & c) ^ (b & d) ^ (c & d)
  {
  }

  class SHA1 {
    var digest: Digest
    var block: array<byte>
    var blockByteIndex: nat
    var byteCount: nat
    /** What has been processed: whole blocks, and what stands in the block that is being filled. */
    ghost var message: seq<byte>
    ghost var whole: seq<byte>

    ghost predicate Valid()
      reads this, block
    {
      && block.Length == 64 && blockByteIndex < 64 && byteCount == |message|
      && message == whole + block[..blockByteIndex]
      && |whole| % 64 == 0 && digest == Fold(INITIAL, whole)
    }

    constructor ()
      ensures Valid() && message == [] && fresh(block)
    {
      digest := Digest(0x67452301, 0xEFCDAB89, 0x98BADCFE, 0x10325476, 0xC3D2E1F0);
      blockByteIndex, byteCount, message, whole := 0, 0, [], [];
      block := new byte[64](_ => 0);
    }

    method ProcessByte(octet: byte)
      requires Valid()
      modifies this, block
      ensures Valid() && message == old(message) + [octet] && block == old(block)
    {
      hide Fold, Compress;
      ghost var part := block[..blockByteIndex];
      block[blockByteIndex] := octet;
      assert block[..blockByteIndex + 1] == part + [octet];
      assert (whole + part) + [octet] == whole + (part + [octet]);
      message := message + [octet];
      blockByteIndex := blockByteIndex + 1;
      byteCount := byteCount + 1;
      if blockByteIndex == 64 {
        assert block[..] == block[..64];
        blockByteIndex := 0;
        ProcessBlock();
        FoldMore(whole, block[..]);
        whole := whole + block[..];
        assert whole + block[..0] == whole;
      }
    }

    /** The compression, in place. */
    method ProcessBlock()
      requires block.Length == 64
      modifies this`digest
      ensures digest == Compress(old(digest), block[..])
    {
      hide Schedule, Round, Rounds, Sum, Compress;
      var w := Words();
      var v := digest;
      NoRounds(v, block[..]);
      for i := 0 to 80
        invariant digest == old(digest) && v == Rounds(digest, block[..], i)
        invariant forall k :: 0 <= k < 80 ==> w[k] == Schedule(block[..], k)
      {
        OneRound(digest, block[..], i);
        v := Turn(v, i, w[i]);
      }
      CompressIs(digest, block[..], 80);
      digest := AddDigests(digest, v);
    }

    method Words() returns (w: array<bv32>)
      requires block.Length == 64
      ensures w.Length == 80 && forall i :: 0 <= i < 80 ==> w[i] == Schedule(block[..], i)
    {
      hide Word, Rotl, LeftRotate, Parity4;
      w := new bv32[80](_ => 0);
      for i := 0 to 16
        invariant forall k :: 0 <= k < i ==> w[k] == Schedule(block[..], k)
      {
        w[i] := LoadWord(block[..], i);
      }
      for i := 16 to 80
        invariant forall k :: 0 <= k < i ==> w[k] == Schedule(block[..], k)
      {
        var x := XorFour(w[i - 3], w[i - 8], w[i - 14], w[i - 16]);
        RotationsAgree(x);
        w[i] := LeftRotate(x, 1);
      }
    }

    method ProcessBytes(data: seq<byte>)
      requires Valid()
      modifies this, block
      ensures Valid() && message == old(message) + data && block == old(block)
    {
      for i := 0 to |data|
        invariant Valid() && message == old(message) + data[..i] && block == old(block)
      {
        ProcessByte(data[i]);
        assert data[..i + 1] == data[..i] + [data[i]];
      }
      assert data[..|data|] == data;
    }

    /** `count` zero octets. */
    method ProcessZeros(count: nat)
      requires Valid()
      modifies this, block
      ensures Valid() && message == old(message) + Zeros(count) && block == old(block)
    {
      assert message == message + Zeros(0);
      for i := 0 to count
        invariant Valid() && message == old(message) + Zeros(i) && block == old(block)
      {
        ProcessByte(0);
        assert old(message) + (Zeros(i) + [0]) == old(message) + Zeros(i + 1);
      }
    }

    /** Zero octets until eight are left in the block: first to the end of this one, if need be. */
    method PadBlock() returns (ghost k: nat)
      requires Valid()
      modifies this, block
      ensures Valid() && block == old(block) && k < 64 && message == old(message) + Zeros(k)
      ensures |message| % 64 == 56
    {
      hide Fold, Zeros, Valid;
      ghost var start := message;
      Counters();
      var first: nat := if blockByteIndex > 56 then 64 - blockByteIndex else 0;
      IndexAfter(|message|, first);
      ProcessZeros(first);
      Counters();
      var second: nat := 56 - blockByteIndex;
      IndexAfter(|message|, second);
      ProcessZeros(second);
      Counters();
      k := first + second;
      TwoStretches(start, first, second);
    }

    lemma Counters()
      requires Valid()
      ensures blockByteIndex == |message| % 64 && byteCount == |message|
      ensures |message| % 64 == 0 ==> digest == Fold(INITIAL, message)
    {
      hide Fold;
      IndexAfter(|whole|, blockByteIndex);
      assert blockByteIndex == 0 ==> whole + block[..0] == whole;
    }

    /** The length, in 32 bits behind four zeros. */
    method ProcessLength(bitCount: nat)
      requires Valid() && bitCount < 0x1_0000_0000
      modifies this, block
      ensures Valid() && block == old(block) && message == old(message) + BigEndian(bitCount, 8)
    {
      hide Zeros, BigEndian, Valid;
      LengthBehind(message, bitCount);
      ProcessZeros(4);
      ProcessByte(bitCount / 0x100_0000 % 0x100);
      ProcessByte(bitCount / 0x1_0000 % 0x100);
      ProcessByte(bitCount / 0x100 % 0x100);
      ProcessByte(bitCount % 0x100);
    }

    /** `getDigest`: the one bit, the zeros and the length. */
    method GetDigest() returns (result: Digest)
      requires Valid() && |message| < 0x2000_0000
      modifies this, block
      ensures result == Sha1(old(message))
    {
      hide Fold, Zeros, BigEndian, Padded, Valid, ZerosFor;
      ghost var start := message;
      Counters();
      var bitCount := byteCount * 8;
      ProcessByte(0x80);
      ghost var k := PadBlock();
      ZerosForIs(|start|, k);
      IndexAfter(|message|, 8);
      ProcessLength(bitCount);
      Counters();
      PaddingIs(start, k, message);
      result := digest;
    }
  }

  // ---------------------------------------------------------------- the digest as octets

  /** A word in four octets, the most significant first. */
  function WordOctets(x: bv32): (o: seq<bv8>)
    ensures |o| == 4
  {
    [((x >> 24) & 0xFF) as bv8, ((x >> 16) & 0xFF) as bv8, ((x >> 8) & 0xFF) as bv8, (x & 0xFF) as bv8]
  }

  /** Taken together again, as a word of a block is loaded, they are the word. */
  lemma WordOctetsLoad(x: bv32)
    ensures var o := WordOctets(x);
      ((o[0] as bv32) << 24) | ((o[1] as bv32) << 16) | ((o[2] as bv32) << 8) | (o[3] as bv32) == x
  {
  }

  function DigestOctets(d: Digest): (o: seq<bv8>)
    ensures |o| == 20
  {
    WordOctets(d.a) + WordOctets(d.b) + WordOctets(d.c) + WordOctets(d.d) + WordOctets(d.e)
  }

  /** `getDigestBytes`. */
  method GetDigestBytes(hash: SHA1) returns (digest: seq<bv8>)
    requires hash.Valid() && |hash.message| < 0x2000_0000
    modifies hash, hash.block
    ensures digest == DigestOctets(Sha1(old(hash.message)))
  {
    hide WordOctets, Sha1;
    var d32 := hash.GetDigest();
    var a := StoreWord(d32.a);
    var b := StoreWord(d32.b);
    var c := StoreWord(d32.c);
    var d := StoreWord(d32.d);
    var e := StoreWord(d32.e);
    digest := a + b + c + d + e;
  }

  method StoreWord(x: bv32) returns (o: seq<bv8>)
    ensures o == WordOctets(x)
  {
    o := [((x >> 24) & 0xFF) as bv8];
    o := o + [((x >> 16) & 0xFF) as bv8];
    o := o + [((x >> 8) & 0xFF) as bv8];
    o := o + [(x & 0xFF) as bv8];
  }

  // The expressions on words, each by itself.

  method AddDigests(x: Digest, y: Digest) returns (z: Digest)
    ensures z == Sum(x, y)
  {
    hide Plus;
    var a := Add(x.a, y.a);
    var b := Add(x.b, y.b);
    var c := Add(x.c, y.c);
    var d := Add(x.d, y.d);
    var e := Add(x.e, y.e);
    z := Digest(a, b, c, d, e);
  }

  method Add(x: bv32, y: bv32) returns (sum: bv32)
    ensures sum == Plus(x, y)
  {
    sum := x + y;
  }

  method AddFive(a: bv32, b: bv32, c: bv32, d: bv32, e: bv32) returns (sum: bv32)
    ensures sum == Sum5(a, b, c, d, e)
  {
    sum := a + b + c + d + e;
  }

  method XorThree(x: bv32, y: bv32, z: bv32) returns (r: bv32)
    ensures r == Parity(x, y, z)
  {
    r := x ^ y ^ z;
  }

  method XorFour(x: bv32, y: bv32, z: bv32, w: bv32) returns (r: bv32)
    ensures r == Parity4(x, y, z, w)
  {
    r := x ^ y ^ z ^ w;
  }

  method LoadWord(block: seq<byte>, i: nat) returns (w: bv32)
    requires |block| == 64 && i < 16
    ensures w == Word(block, i)
  {
    w := (block[4 * i] as bv32) << 24;
    w := w | ((block[4 * i + 1] as bv32) << 16);
    w := w | ((block[4 * i + 2] as bv32) << 8);
    w := w | (block[4 * i + 3] as bv32);
  }

  /** One of the eighty rounds, as the code computes it. */
  method Turn(v: Digest, i: nat, w: bv32) returns (next: Digest)
    ensures next == Round(v, i, w)
  {
    hide LeftRotate, Rotl, F, K, Sum5;
    RotationsAgree(v.a);
    RotationsAgree(v.b);
    var f, k := Mix(i, v.b, v.c, v.d);
    var temp := AddFive(LeftRotate(v.a, 5), f, v.e, k, w);
    next := Digest(temp, v.a, LeftRotate(v.b, 30), v.c, v.d);
  }

  method Mix(i: nat, b: bv32, c: bv32, d: bv32) returns (f: bv32, k: bv32)
    ensures f == F(i, b, c, d) && k == K(i)
  {
    hide CodeChoice, CodeMajority, Choice, Majority, Parity;
    ChoicesAgree(b, c, d);
    if i < 20 {
      f, k := CodeChoice(b, c, d), 0x5A827999;
    } else if i < 40 {
      f := XorThree(b, c, d);
      k := 0x6ED9EBA1;
    } else if i < 60 {
      f, k := CodeMajority(b, c, d), 0x8F1BBCDC;
    } else {
      f := XorThree(b, c, d);
      k := 0xCA62C1D6;
    }
  }

  lemma CompressIs(v: Digest, block: seq<byte>, t: nat)
    requires |block| == 64 && t == 80
    ensures Compress(v, block) == Sum(v, Rounds(v, block, t))
  {
    hide Rounds, Sum;
  }

  lemma {:induction false} ZerosAdd(a: nat, b: nat)
    ensures Zeros(a) + Zeros(b) == Zeros(a + b)
  {
  }

  /** A number below 2^32 in eight octets. */
  lemma LengthOctets(n: nat)
    requires n < 0x1_0000_0000
    ensures BigEndian(n, 8) == Zeros(4) + [n / 0x100_0000 % 0x100] + [n / 0x1_0000 % 0x100] + [n / 0x100 % 0x100]
            + [n % 0x100]
  {
    var a, b, c := n / 0x100, n / 0x1_0000, n / 0x100_0000;
    assert b == a / 0x100 && c == b / 0x100 && c / 0x100 == 0;
    assert BigEndian(n, 8) == BigEndian(a, 7) + [n % 0x100];
    assert BigEndian(a, 7) == BigEndian(b, 6) + [a % 0x100];
    assert BigEndian(b, 6) == BigEndian(c, 5) + [b % 0x100];
    assert BigEndian(c, 5) == BigEndian(0, 4) + [c % 0x100];
    NoOctets(4);
  }

  lemma {:induction false} NoOctets(size: nat)
    ensures BigEndian(0, size) == Zeros(size)
  {
    if size > 0 {
      NoOctets(size - 1);
    }
  }

  lemma TwoStretches(start: seq<byte>, a: nat, b: nat)
    ensures start + Zeros(a) + Zeros(b) == start + Zeros(a + b)
  {
    ZerosAdd(a, b);
    assert start + Zeros(a) + Zeros(b) == start + (Zeros(a) + Zeros(b));
  }

  lemma LengthBehind(before: seq<byte>, n: nat)
    requires n < 0x1_0000_0000
    ensures before + Zeros(4) + [n / 0x100_0000 % 0x100] + [n / 0x1_0000 % 0x100] + [n / 0x100 % 0x100] + [n % 0x100] ==
            before + BigEndian(n, 8)
  {
    LengthOctets(n);
    var a, b, c, d := [n / 0x100_0000 % 0x100], [n / 0x1_0000 % 0x100], [n / 0x100 % 0x100], [n % 0x100];
    hide Zeros, BigEndian;
    assert before + Zeros(4) + a + b + c + d == before + (Zeros(4) + a + b + c + d);
  }

  /** Where a block stands after `k` octets more. */
  lemma IndexAfter(n: nat, k: nat)
    ensures n % 64 + k < 64 ==> (n + k) % 64 == n % 64 + k
    ensures n % 64 + k == 64 ==> (n + k) % 64 == 0
  {
    var q, r := n / 64, n % 64;
    assert n + k == 64 * q + (r + k);
  }

  /** What was processed is the padded message. */
  lemma PaddingIs(start: seq<byte>, k: nat, message: seq<byte>)
    requires k == ZerosFor(|start|)
    requires message == start + [0x80] + Zeros(k) + BigEndian(|start| * 8, 8)
    ensures message == Padded(start)
  {
    hide Zeros, BigEndian, ZerosFor;
    var length := BigEndian(|start| * 8, 8);
    assert start + ([0x80] + Zeros(k) + length) == start + [0x80] + Zeros(k) + length;
  }

  /** The number of zeros is the one that the standard asks for. */
  lemma ZerosForIs(n: nat, k: nat)
    requires k < 64 && (n + 1 + k) % 64 == 56
    ensures k == ZerosFor(n)
  {
    var q, r := n / 64, n % 64;
    assert n + 1 + k == 64 * q + (r + 1 + k);
    assert (r + 1 + k) % 64 == 56;
  }

  lemma NoRounds(v: Digest, block: seq<byte>)
    requires |block| == 64
    ensures Rounds(v, block, 0) == v
  {
  }

  lemma OneRound(v: Digest, block: seq<byte>, t: nat)
    requires |block| == 64
    ensures Rounds(v, block, t + 1) == Round(Rounds(v, block, t), t, Schedule(block, t))
  {
    hide Round, Schedule;
  }

  lemma FoldMore(whole: seq<byte>, block: seq<byte>)
    requires |whole| % 64 == 0 && |block| == 64
    ensures |whole + block| % 64 == 0
    ensures Fold(INITIAL, whole + block) == Compress(Fold(INITIAL, whole), block)
  {
    var data := whole + block;
    assert data[..|data| - 64] == whole && data[|data| - 64..] == block;
  }

  function Joined(pieces: seq<seq<byte>>): seq<byte> {
    if pieces == [] then [] else Joined(pieces[..|pieces| - 1]) + pieces[|pieces| - 1]
  }

  /** However a message shorter than 2^29 octets is cut into calls, the digest is that of the whole. */
  method HashPieces(pieces: seq<seq<byte>>) returns (result: Digest)
    requires |Joined(pieces)| < 0x2000_0000
    ensures result == Sha1(Joined(pieces))
  {
    var sha := new SHA1();
    for i := 0 to |pieces|
      invariant sha.Valid() && sha.message == Joined(pieces[..i]) && fresh(sha) && fresh(sha.block)
    {
      assert pieces[..i + 1][..i] == pieces[..i];
      sha.ProcessBytes(pieces[i]);
    }
    assert pieces[..|pieces|] == pieces;
    result := sha.GetDigest();
  }
}
