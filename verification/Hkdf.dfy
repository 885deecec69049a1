/** HKDF over an HMAC given as a parameter: the blocks of section 2.3 of RFC 5869 and the C expansion loop. */
module Hkdf {
  import opened Bytes

  type Hmac = (seq<byte>, seq<byte>) -> Bytes32

  function Extract(hmac: Hmac, salt: seq<byte>, ikm: seq<byte>): Bytes32 {
    hmac(salt, ikm)
  }

  /** `T(i)` of the RFC, whose counter is a single octet. */
  function T(hmac: Hmac, prk: seq<byte>, info: seq<byte>, i: nat): seq<byte>
    requires i <= 255
  {
    if i == 0 then [] else hmac(prk, T(hmac, prk, info, i - 1) + info + [i])
  }

  /** The same with the C loop's counter, which wraps at 256. */
  function WrappedT(hmac: Hmac, prk: seq<byte>, info: seq<byte>, i: nat): (s: seq<byte>)
    ensures |s| == if i == 0 then 0 else 32
  {
    if i == 0 then [] else hmac(prk, WrappedT(hmac, prk, info, i - 1) + info + [i % 256])
  }

  /** `T(1) | T(2) | ... | T(n)`. */
  function Blocks(hmac: Hmac, prk: seq<byte>, info: seq<byte>, n: nat): seq<byte>
    requires n <= 255
  {
    if n == 0 then [] else Blocks(hmac, prk, info, n - 1) + T(hmac, prk, info, n)
  }

  function WrappedBlocks(hmac: Hmac, prk: seq<byte>, info: seq<byte>, n: nat): (s: seq<byte>)
    ensures |s| == 32 * n
  {
    if n == 0 then [] else WrappedBlocks(hmac, prk, info, n - 1) + WrappedT(hmac, prk, info, n)
  }

  lemma {:induction false} NoWrapUpTo255(hmac: Hmac, prk: seq<byte>, info: seq<byte>, n: nat)
    requires n <= 255
    ensures WrappedT(hmac, prk, info, n) == T(hmac, prk, info, n)
    ensures WrappedBlocks(hmac, prk, info, n) == Blocks(hmac, prk, info, n)
  {
    if n > 0 {
      NoWrapUpTo255(hmac, prk, info, n - 1);
    }
  }

  function BlockCount(len: nat): nat {
    (len + 31) / 32
  }

  /** The HKDF output of section 2.3 of RFC 5869. */
  function Expand(hmac: Hmac, prk: seq<byte>, info: seq<byte>, len: nat): (okm: seq<byte>)
    requires len <= 255 * 32
    ensures |okm| == len
  {
    NoWrapUpTo255(hmac, prk, info, BlockCount(len));
    Blocks(hmac, prk, info, BlockCount(len))[..len]
  }

  method CopyInto(dst: array<byte>, off: nat, src: seq<byte>)
    requires off + |src| <= dst.Length
    modifies dst
    ensures dst[..off + |src|] == old(dst[..off]) + src
    ensures dst[off + |src|..] == old(dst[off + |src|..])
  {
    for i := 0 to |src|
      invariant dst[..off + i] == old(dst[..off]) + src[..i]
      invariant dst[off + i..] == old(dst[off + i..])
    {
      dst[off + i] := src[i];
    }
  }

  /** One pass of the loop body before the copy-out: the message in the work buffer and its MAC. */
  method NextBlock(hmac: Hmac, buf: array<byte>, t: seq<byte>, prk: seq<byte>, info: seq<byte>, ctr: byte) returns (r: Bytes32)
    requires buf.Length == 32 + 256 + 1 && |t| <= 32 && |info| <= 256
    modifies buf
    ensures r == hmac(prk, t + info + [ctr])
  {
    var off := 0;
    if |t| > 0 {
      CopyInto(buf, off, t);
      off := off + |t|;
    }
    assert buf[..off] == t;
    CopyInto(buf, off, info);
    off := off + |info|;
    buf[off] := ctr;
    off := off + 1;
    assert buf[..off] == t + info + [ctr];
    r := hmac(prk, buf[..off]);
  }

  /** The copy-out of one block, cut off where the requested length ends. */
  method EmitBlock(out: array<byte>, pos: nat, outLen: nat, t: Bytes32) returns (next: nat)
    requires pos < outLen <= out.Length
    modifies out
    ensures next == if outLen - pos < 32 then outLen else pos + 32
    ensures out[..next] == (old(out[..pos]) + t)[..next]
    ensures out[next..] == old(out[next..])
  {
    ghost var done := out[..pos];
    var take := if outLen - pos < 32 then outLen - pos else 32;
    TakeBlock(done, t, take);
    CopyInto(out, pos, t[..take]);
    return pos + take;
  }

  /**
   The C loop. It stays inside its 289-byte work buffer for info of at most 256 bytes, writes
   nothing behind the requested length, and for lengths the RFC allows yields the RFC's output.
   */
  method HkdfExpand(hmac: Hmac, out: array<byte>, outLen: nat, prk: seq<byte>, info: seq<byte>)
    requires outLen <= out.Length && |info| <= 256
    modifies out
    ensures out[..outLen] == WrappedBlocks(hmac, prk, info, BlockCount(outLen))[..outLen]
    ensures outLen <= 255 * 32 ==> out[..outLen] == Expand(hmac, prk, info, outLen)
    ensures out[outLen..] == old(out[outLen..])
  {
    hide Blocks, T, Expand, WrappedT, WrappedBlocks;
    NoBlocks(hmac, prk, info);
    var buf := new byte[32 + 256 + 1];
    var t: seq<byte>, pos, ctr: byte := [], 0, 1;
    ghost var k: nat := 0;
    while pos < outLen
      invariant pos <= outLen && (pos == 32 * k || pos == outLen <= 32 * k)
      invariant pos == outLen ==> k == BlockCount(outLen)
      invariant t == WrappedT(hmac, prk, info, k) && ctr == (k + 1) % 256
      invariant out[..pos] == WrappedBlocks(hmac, prk, info, k)[..pos]
      invariant out[outLen..] == old(out[outLen..])
      decreases outLen - pos
    {
      t := NextBlock(hmac, buf, t, prk, info, ctr);
      ctr := (ctr + 1) % 256;
      ghost var rest := out[outLen..];
      OneMoreBlock(hmac, prk, info, k);
      k := k + 1;
      var next := EmitBlock(out, pos, outLen, t);
      assert out[outLen..] == out[next..][outLen - next..] == rest;
      pos := next;
    }
    if outLen <= 255 * 32 {
      ExpandIsWrapped(hmac, prk, info, outLen);
    }
  }

  lemma NoBlocks(hmac: Hmac, prk: seq<byte>, info: seq<byte>)
    ensures WrappedT(hmac, prk, info, 0) == [] && WrappedBlocks(hmac, prk, info, 0) == []
  {
  }

  lemma OneMoreBlock(hmac: Hmac, prk: seq<byte>, info: seq<byte>, k: nat)
    ensures WrappedT(hmac, prk, info, k + 1) == hmac(prk, WrappedT(hmac, prk, info, k) + info + [(k + 1) % 256])
    ensures WrappedBlocks(hmac, prk, info, k + 1) == WrappedBlocks(hmac, prk, info, k) + WrappedT(hmac, prk, info, k + 1)
  {
  }

  lemma TakeBlock(done: seq<byte>, t: seq<byte>, take: nat)
    requires take <= |t|
    ensures done[..|done|] + t[..take] == (done + t)[..|done| + take]
  {
  }

  lemma ExpandIsWrapped(hmac: Hmac, prk: seq<byte>, info: seq<byte>, len: nat)
    requires len <= 255 * 32
    ensures Expand(hmac, prk, info, len) == WrappedBlocks(hmac, prk, info, BlockCount(len))[..len]
  {
    NoWrapUpTo255(hmac, prk, info, BlockCount(len));
  }

  /** A 32-byte output is the first block. */
  function Expand32(hmac: Hmac, prk: seq<byte>, info: seq<byte>): Bytes32 {
    hmac(prk, info + [1])
  }

  lemma Expand32IsExpand(hmac: Hmac, prk: seq<byte>, info: seq<byte>)
    ensures Expand(hmac, prk, info, 32) == Expand32(hmac, prk, info)
  {
    assert T(hmac, prk, info, 0) + info + [1] == info + [1];
    assert Blocks(hmac, prk, info, 1) == Blocks(hmac, prk, info, 0) + T(hmac, prk, info, 1);
  }
}
