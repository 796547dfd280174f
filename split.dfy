/** The split half of the long-message codec: the chunk buffers that
    `encryptLongMessage` builds before each one is embedded and encrypted. */
module Splitting {
  import opened Bytes

  /** Number of chunks every message is cut into (`messagePartitions`). */
  const MessagePartitions: nat := 8
  /** Length of the nonce that prefixes every chunk (`randomnessLength`). */
  const RandomnessLength: nat := 16

  /** Payload bytes per chunk for an embedding capacity of `embedLen`
      (`meaningfulDataLength`): what is left after the nonce and the
      position byte. */
  function PayloadLength(embedLen: nat): (m: nat)
    requires embedLen > RandomnessLength
  {
    embedLen - RandomnessLength - 1
  }

  function Zeros(n: nat): (z: seq<byte>)
    ensures |z| == n && forall i :: 0 <= i < n ==> z[i] == 0
  {
    seq(n, _ => 0)
  }

  /** `data` cut to `n` bytes, or filled up to `n` bytes with zeros. */
  function Pad(data: seq<byte>, n: nat): (p: seq<byte>)
    ensures |p| == n
    ensures forall i :: 0 <= i < n ==> p[i] == if i < |data| then data[i] else 0
  {
    if |data| >= n then data[..n] else data + Zeros(n - |data|)
  }

  /** What a message of `data` becomes after a round trip through the
      codec: the room of all eight chunks, filled from `data`. */
  function Padded(data: seq<byte>, embedLen: nat): (padded: seq<byte>)
    requires embedLen > RandomnessLength
  {
    Pad(data, MessagePartitions * PayloadLength(embedLen))
  }

  /** The `i`-th chunk: the nonce, the position byte `i`, then the `i`-th
      payload-sized slice of the padded data. */
  function ChunkOf(data: seq<byte>, nonce: seq<byte>, embedLen: nat, i: nat): (chunk: seq<byte>)
    requires embedLen > RandomnessLength && i < MessagePartitions
  {
    var m := PayloadLength(embedLen);
    assert (i + 1) * m == i * m + m <= MessagePartitions * m;
    nonce + [i as byte] + Padded(data, embedLen)[i * m .. (i + 1) * m]
  }

  /** The parts of the `i`-th chunk: the nonce, the position byte `i`, and
      the `i`-th payload-sized slice of the padded data. */
  lemma {:induction false} ChunkParts(data: seq<byte>, nonce: seq<byte>, embedLen: nat, i: nat)
    requires |nonce| == RandomnessLength && embedLen > RandomnessLength && i < MessagePartitions
    ensures var c := ChunkOf(data, nonce, embedLen, i);
      var m := PayloadLength(embedLen);
      && (i + 1) * m <= MessagePartitions * m
      && |c| == embedLen
      && c[..RandomnessLength] == nonce
      && c[RandomnessLength] == i as byte
      && c[RandomnessLength + 1..] == Padded(data, embedLen)[i * m .. (i + 1) * m]
  {
    var m := PayloadLength(embedLen);
    assert (i + 1) * m == i * m + m <= MessagePartitions * m;
    var c := ChunkOf(data, nonce, embedLen, i);
    var slice := Padded(data, embedLen)[i * m .. (i + 1) * m];
    assert c == nonce + [i as byte] + slice;
    assert c[..RandomnessLength] == nonce;
    assert c[RandomnessLength + 1..] == slice;
  }

  /** All chunks of one message, in position order. */
  function Split(data: seq<byte>, nonce: seq<byte>, embedLen: nat): (chunks: seq<seq<byte>>)
    requires embedLen > RandomnessLength
  {
    seq(MessagePartitions, i requires 0 <= i < MessagePartitions => ChunkOf(data, nonce, embedLen, i))
  }

  /** The bytes after the nonce and the position byte. */
  function Payload(chunk: seq<byte>): (payload: seq<byte>)
    requires |chunk| > RandomnessLength
  {
    chunk[RandomnessLength + 1..]
  }

  /** The payloads of `chunks`, one after the other. */
  function Payloads(chunks: seq<seq<byte>>): (payloads: seq<byte>)
    requires forall k :: 0 <= k < |chunks| ==> |chunks[k]| > RandomnessLength
  {
    if chunks == [] then []
    else Payloads(chunks[..|chunks| - 1]) + Payload(chunks[|chunks| - 1])
  }

  /** Go's builtin `copy(dst[lo:hi], src)`: copies as many bytes as both
      sides have room for and reports how many that was. */
  method Copy(dst: array<byte>, lo: nat, hi: nat, src: seq<byte>) returns (n: nat)
    requires lo <= hi <= dst.Length
    modifies dst
    ensures n == Min(hi - lo, |src|)
    ensures dst[..] == old(dst[..lo]) + src[..n] + old(dst[lo + n..])
  {
    n := Min(hi - lo, |src|);
    for k := 0 to n
      invariant dst[..] == old(dst[..lo]) + src[..k] + old(dst[lo + k..])
    {
      dst[lo + k] := src[k];
      assert src[..k + 1] == src[..k] + [src[k]];
    }
  }

  /** The buffer construction of `encryptLongMessage`: eight fresh zeroed
      buffers of `embedLen` bytes, each holding the shared nonce, its
      position byte and the next slice of the data. The result is the
      closed-form split of the data. */
  method EncryptLongMessage(data: seq<byte>, nonce: seq<byte>, embedLen: nat) returns (portions: seq<seq<byte>>)
    requires |nonce| == RandomnessLength
    requires embedLen > RandomnessLength
    ensures portions == Split(data, nonce, embedLen)
  {
    var m := PayloadLength(embedLen);
    var remaining := data;
    portions := [];
    for i := 0 to MessagePartitions
      invariant remaining == data[Min(|data|, i * m)..]
      invariant portions == Split(data, nonce, embedLen)[..i]
    {
      var buffer := new byte[embedLen](_ => 0);
      assert buffer[..] == Zeros(embedLen);
      var _ := Copy(buffer, 0, RandomnessLength, nonce);
      ghost var withNonce := buffer[..];
      buffer[RandomnessLength] := i as byte;
      assert buffer[..] == withNonce[RandomnessLength := i as byte];
      HeaderInZeros(nonce, i as byte, embedLen);
      ghost var taken := if |remaining| >= m then remaining[..m] else remaining;
      ghost var blank := buffer[..];
      if |remaining| >= m {
        var n := Copy(buffer, RandomnessLength + 1, buffer.Length, remaining[..m]);
        assert n == |taken| && remaining[..m][..n] == taken;
        remaining := remaining[m..];
      } else {
        var n := Copy(buffer, RandomnessLength + 1, buffer.Length, remaining);
        assert n == |taken| && remaining[..n] == taken;
        remaining := remaining[0..0];
      }
      assert buffer[..] == nonce + [i as byte] + taken + Zeros(m - |taken|) by {
        assert buffer[..] == blank[..RandomnessLength + 1] + taken + blank[RandomnessLength + 1 + |taken|..];
        FillAfterHeader(nonce + [i as byte], m, taken);
      }
      FilledBufferIsChunk(data, nonce, embedLen, i, taken);
      NextRemaining(data, m, i);
      portions := portions + [buffer[..]];
    }
    assert Split(data, nonce, embedLen)[..MessagePartitions] == Split(data, nonce, embedLen);
  }

  /** The `i`-th payload slice of the padded data is what the `i`-th step of
      `encryptLongMessage` copies (at most one payload of the data that
      remains) followed by zeros. */
  lemma {:induction false} SliceOfPadded(data: seq<byte>, embedLen: nat, i: nat, taken: seq<byte>)
    requires embedLen > RandomnessLength && i < MessagePartitions
    requires var m := PayloadLength(embedLen);
      var remaining := data[Min(|data|, i * m)..];
      taken == if |remaining| >= m then remaining[..m] else remaining
    ensures var m := PayloadLength(embedLen);
      (i + 1) * m <= MessagePartitions * m &&
      Padded(data, embedLen)[i * m .. (i + 1) * m] == taken + Zeros(m - |taken|)
  {
    var m := PayloadLength(embedLen);
    assert (i + 1) * m == i * m + m <= MessagePartitions * m;
    var p := Padded(data, embedLen);
    var offset := Min(|data|, i * m);
    var q := taken + Zeros(m - |taken|);
    forall t | 0 <= t < m
      ensures q[t] == p[i * m + t]
    {
      if t < |taken| {
        assert offset == i * m;
      }
    }
  }

  /** The buffer one step of `encryptLongMessage` fills, appended to the
      chunks built before it, extends them by the next chunk of the split. */
  lemma {:induction false} FilledBufferIsChunk(data: seq<byte>, nonce: seq<byte>, embedLen: nat, i: nat, taken: seq<byte>)
    requires embedLen > RandomnessLength && i < MessagePartitions
    requires var m := PayloadLength(embedLen);
      var remaining := data[Min(|data|, i * m)..];
      taken == if |remaining| >= m then remaining[..m] else remaining
    ensures var m := PayloadLength(embedLen);
      var chunks := Split(data, nonce, embedLen);
      |taken| <= m &&
      chunks[..i] + [nonce + [i as byte] + taken + Zeros(m - |taken|)] == chunks[..i + 1]
  {
    var m := PayloadLength(embedLen);
    var chunks := Split(data, nonce, embedLen);
    SliceOfPadded(data, embedLen, i, taken);
    var filled := taken + Zeros(m - |taken|);
    assert chunks[i] == nonce + [i as byte] + filled;
    assert nonce + [i as byte] + taken + Zeros(m - |taken|) == nonce + [i as byte] + filled;
    assert chunks[..i + 1] == chunks[..i] + [chunks[i]];
  }

  /** Copying `src` behind a header into zeros leaves the header, then
      `src`, then the zeros that are left. */
  lemma {:induction false} FillAfterHeader(header: seq<byte>, m: nat, src: seq<byte>)
    requires |src| <= m
    ensures var blank := header + Zeros(m);
      blank[..|header|] + src + blank[|header| + |src|..] == header + src + Zeros(m - |src|)
  {
    var blank := header + Zeros(m);
    assert blank[..|header|] == header;
    assert blank[|header| + |src|..] == Zeros(m - |src|);
  }

  /** A zeroed buffer with the nonce copied to its front and the position
      byte written behind it. */
  lemma {:induction false} HeaderInZeros(nonce: seq<byte>, b: byte, embedLen: nat)
    requires |nonce| == RandomnessLength && embedLen > RandomnessLength
    ensures var blank := Zeros(embedLen);
      (blank[..0] + nonce[..RandomnessLength] + blank[RandomnessLength..])[RandomnessLength := b] ==
        nonce + [b] + Zeros(PayloadLength(embedLen))
  {
    var blank := Zeros(embedLen);
    var s := blank[..0] + nonce[..RandomnessLength] + blank[RandomnessLength..];
    var t := nonce + [b] + Zeros(PayloadLength(embedLen));
    assert |s[RandomnessLength := b]| == |t|;
    forall k | 0 <= k < |t| ensures s[RandomnessLength := b][k] == t[k] {
      if k < RandomnessLength {
        assert s[k] == nonce[k];
      }
    }
  }

  /** After one step, the remaining data starts one payload further on. */
  lemma {:induction false} NextRemaining(data: seq<byte>, m: nat, i: nat)
    ensures var remaining := data[Min(|data|, i * m)..];
      (if |remaining| >= m then remaining[m..] else remaining[0..0]) == data[Min(|data|, (i + 1) * m)..]
  {
    assert (i + 1) * m == i * m + m;
  }

  /** The `i`-th chunk carries the next `min(len(remaining), M)` bytes of
      the data, where `remaining` is what the earlier chunks left and `M`
      the payload length, and zeros after them. */
  lemma {:induction false} PayloadOfChunk(data: seq<byte>, nonce: seq<byte>, embedLen: nat, i: nat)
    requires |nonce| == RandomnessLength && embedLen > RandomnessLength && i < MessagePartitions
    ensures var m := PayloadLength(embedLen);
      var offset := Min(|data|, i * m);
      var count := Min(|data| - offset, m);
      offset + count <= |data| &&
      Payload(Split(data, nonce, embedLen)[i]) == data[offset .. offset + count] + Zeros(m - count)
  {
    var m := PayloadLength(embedLen);
    var offset := Min(|data|, i * m);
    var remaining := data[offset..];
    var taken := if |remaining| >= m then remaining[..m] else remaining;
    SliceOfPadded(data, embedLen, i, taken);
    var c := ChunkOf(data, nonce, embedLen, i);
    assert Payload(c) == Padded(data, embedLen)[i * m .. (i + 1) * m];
  }

  /** The shape of a split: eight chunks of `embedLen` bytes, all opening
      with the shared nonce, the `i`-th carrying position byte `i`, and
      their payloads in order spelling the padded data. */
  lemma {:induction false} SplitShape(data: seq<byte>, nonce: seq<byte>, embedLen: nat)
    requires |nonce| == RandomnessLength && embedLen > RandomnessLength
    ensures var chunks := Split(data, nonce, embedLen);
      && |chunks| == MessagePartitions
      && (forall i :: 0 <= i < |chunks| ==>
            |chunks[i]| == embedLen && chunks[i][..RandomnessLength] == nonce && chunks[i][RandomnessLength] == i as byte)
      && Payloads(chunks) == Padded(data, embedLen)
  {
    var chunks := Split(data, nonce, embedLen);
    forall i | 0 <= i < MessagePartitions
      ensures |chunks[i]| == embedLen && chunks[i][..RandomnessLength] == nonce && chunks[i][RandomnessLength] == i as byte
    {
      ChunkParts(data, nonce, embedLen, i);
    }
    PayloadsOfSplitPrefix(data, nonce, embedLen, MessagePartitions);
    assert chunks[..MessagePartitions] == chunks;
  }

  lemma {:induction false} PayloadsOfSplitPrefix(data: seq<byte>, nonce: seq<byte>, embedLen: nat, k: nat)
    requires |nonce| == RandomnessLength && embedLen > RandomnessLength && k <= MessagePartitions
    ensures var chunks := Split(data, nonce, embedLen);
      var m := PayloadLength(embedLen);
      && k * m <= MessagePartitions * m
      && (forall i :: 0 <= i < MessagePartitions ==> |chunks[i]| > RandomnessLength)
      && Payloads(chunks[..k]) == Padded(data, embedLen)[..k * m]
  {
    var chunks := Split(data, nonce, embedLen);
    var m := PayloadLength(embedLen);
    forall i | 0 <= i < MessagePartitions ensures |chunks[i]| > RandomnessLength {
      ChunkParts(data, nonce, embedLen, i);
    }
    if k == 0 {
      assert chunks[..0] == [];
    } else {
      PayloadsOfSplitPrefix(data, nonce, embedLen, k - 1);
      ChunkParts(data, nonce, embedLen, k - 1);
      var p := Padded(data, embedLen);
      assert chunks[..k][..k - 1] == chunks[..k - 1];
      assert Payload(chunks[k - 1]) == p[(k - 1) * m .. k * m];
      assert p[..k * m] == p[..(k - 1) * m] + p[(k - 1) * m .. k * m];
    }
  }
}
