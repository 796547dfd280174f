/** The round trip of the long-message codec: whatever order the chunks of
    one or several split messages arrive in, `compileMessages` gives back
    each message's padded data, ordered by nonce. Embedding, encryption,
    the shuffle and decryption are taken to hand back each chunk's bytes
    unchanged. */
module RoundTrip {
  import opened Bytes
  import opened Sorting
  import opened Splitting
  import opened Reassembly

  /** The chunks of several messages, one message's split after another. */
  function AllSplits(nonces: seq<seq<byte>>, datas: seq<seq<byte>>, embedLen: nat): (chunks: seq<seq<byte>>)
    requires |nonces| == |datas| && embedLen > RandomnessLength
    requires forall j :: 0 <= j < |nonces| ==> |nonces[j]| == RandomnessLength
    ensures |chunks| == MessagePartitions * |nonces|
    ensures forall t :: 0 <= t < |chunks| ==> |chunks[t]| == embedLen && chunks[t][..RandomnessLength] in nonces
    decreases |nonces|
  {
    if nonces == [] then []
    else
      var n := |nonces| - 1;
      SplitShape(datas[n], nonces[n], embedLen);
      var earlier := AllSplits(nonces[..n], datas[..n], embedLen);
      var chunks := earlier + Split(datas[n], nonces[n], embedLen);
      assert forall t :: 0 <= t < |earlier| ==> chunks[t] == earlier[t] && chunks[t][..RandomnessLength] in nonces[..n];
      chunks
  }

  /** Within one split the chunks rise strictly: they share the nonce and
      their position bytes count up. */
  lemma {:induction false} SplitAscending(data: seq<byte>, nonce: seq<byte>, embedLen: nat)
    requires |nonce| == RandomnessLength && embedLen > RandomnessLength
    ensures StrictlyAscending(Split(data, nonce, embedLen))
  {
    var chunks := Split(data, nonce, embedLen);
    SplitShape(data, nonce, embedLen);
    forall i, j | 0 <= i < j < |chunks| ensures Less(chunks[i], chunks[j]) {
      assert chunks[i][..RandomnessLength] == nonce == chunks[j][..RandomnessLength];
      LessDecidedAt(chunks[i], chunks[j], RandomnessLength);
    }
  }

  /** Byte strings that open with nonces in strict order are in strict
      order themselves. */
  lemma {:induction false} LessByNonce(a: seq<byte>, b: seq<byte>)
    requires |a| >= RandomnessLength && |b| >= RandomnessLength
    requires Less(a[..RandomnessLength], b[..RandomnessLength])
    ensures Less(a, b)
  {
    assert a == a[..RandomnessLength] + a[RandomnessLength..];
    assert b == b[..RandomnessLength] + b[RandomnessLength..];
    LessExtend(a[..RandomnessLength], b[..RandomnessLength], a[RandomnessLength..], b[RandomnessLength..]);
  }

  /** Two strictly ascending lists, every element of the first below every
      element of the second, make a strictly ascending list. */
  lemma {:induction false} AscendingConcat(x: seq<seq<byte>>, y: seq<seq<byte>>)
    requires StrictlyAscending(x) && StrictlyAscending(y)
    requires forall i, j :: 0 <= i < |x| && 0 <= j < |y| ==> Less(x[i], y[j])
    ensures StrictlyAscending(x + y)
  {
    var xy := x + y;
    forall i, j | 0 <= i < j < |xy| ensures Less(xy[i], xy[j]) {
      if j < |x| {
        assert xy[i] == x[i] && xy[j] == x[j];
      } else if i >= |x| {
        assert xy[i] == y[i - |x|] && xy[j] == y[j - |x|];
      } else {
        assert xy[i] == x[i] && xy[j] == y[j - |x|];
      }
    }
  }

  /** With strictly ascending nonces, the chunks of the messages one after
      another are strictly ascending too: this is the sorted order. */
  lemma {:induction false} AllSplitsAscending(nonces: seq<seq<byte>>, datas: seq<seq<byte>>, embedLen: nat)
    requires |nonces| == |datas| && embedLen > RandomnessLength
    requires forall j :: 0 <= j < |nonces| ==> |nonces[j]| == RandomnessLength
    requires StrictlyAscending(nonces)
    ensures StrictlyAscending(AllSplits(nonces, datas, embedLen))
  {
    if nonces != [] {
      var n := |nonces| - 1;
      var earlier := AllSplits(nonces[..n], datas[..n], embedLen);
      var last := Split(datas[n], nonces[n], embedLen);
      assert AllSplits(nonces, datas, embedLen) == earlier + last;
      assert StrictlyAscending(nonces[..n]);
      AllSplitsAscending(nonces[..n], datas[..n], embedLen);
      SplitAscending(datas[n], nonces[n], embedLen);
      SplitShape(datas[n], nonces[n], embedLen);
      forall i, j | 0 <= i < |earlier| && 0 <= j < |last| ensures Less(earlier[i], last[j]) {
        var w :| 0 <= w < n && nonces[..n][w] == earlier[i][..RandomnessLength];
        assert Less(nonces[w], nonces[n]);
        LessByNonce(earlier[i], last[j]);
      }
      AscendingConcat(earlier, last);
    }
  }

  /** A strictly ascending list is sorted. */
  lemma {:induction false} AscendingIsSorted(chunks: seq<seq<byte>>)
    requires StrictlyAscending(chunks)
    ensures Sorted(chunks)
  {
    forall i, j | 0 <= i < j < |chunks| ensures !Less(chunks[j], chunks[i]) {
      LessAsymmetric(chunks[i], chunks[j]);
    }
  }

  /** Scanning the first `k` chunks of a split, from a state whose prefix is
      not the split's nonce: one new message holding the first `k` payload
      slices of the padded data, with `k - 1` as the last index seen. */
  lemma {:induction false} ScanSplitPrefix(st: ScanState, data: seq<byte>, nonce: seq<byte>, embedLen: nat, k: nat)
    requires Consistent(st) && st.prefix != nonce
    requires |nonce| == RandomnessLength && embedLen > RandomnessLength
    requires 1 <= k <= MessagePartitions
    ensures var chunks := Split(data, nonce, embedLen);
      var m := PayloadLength(embedLen);
      && AllWellFormed(chunks[..k])
      && k * m <= MessagePartitions * m
      && ScanFrom(st, chunks[..k]) == ScanState(nonce, (k - 1) as byte, st.messages + [Padded(data, embedLen)[..k * m]])
  {
    var chunks := Split(data, nonce, embedLen);
    var m := PayloadLength(embedLen);
    var p := Padded(data, embedLen);
    var c := chunks[k - 1];
    ChunkParts(data, nonce, embedLen, k - 1);
    assert AllWellFormed(chunks[..k]) by {
      forall t | 0 <= t < k ensures WellFormed(chunks[..k][t]) {
        ChunkParts(data, nonce, embedLen, t);
      }
    }
    assert Prefix(c) == nonce && Index(c) == (k - 1) as byte;
    assert Payload(c) == p[(k - 1) * m .. k * m];
    assert chunks[..k] == chunks[..k - 1] + [c];
    if k == 1 {
      assert chunks[..k - 1] == [];
    } else {
      ScanSplitPrefix(st, data, nonce, embedLen, k - 1);
      var prev := st.messages + [p[..(k - 1) * m]];
      assert ScanFrom(st, chunks[..k - 1]) == ScanState(nonce, (k - 2) as byte, prev);
      assert p[..k * m] == p[..(k - 1) * m] + p[(k - 1) * m .. k * m];
      assert prev[|prev| - 1 := prev[|prev| - 1] + Payload(c)] == st.messages + [p[..k * m]];
    }
  }

  /** Scanning a whole split adds exactly one message, its padded data. */
  lemma {:induction false} ScanSplit(st: ScanState, data: seq<byte>, nonce: seq<byte>, embedLen: nat)
    requires Consistent(st) && st.prefix != nonce
    requires |nonce| == RandomnessLength && embedLen > RandomnessLength
    ensures var chunks := Split(data, nonce, embedLen);
      && AllWellFormed(chunks)
      && ScanFrom(st, chunks) == ScanState(nonce, (MessagePartitions - 1) as byte, st.messages + [Padded(data, embedLen)])
  {
    var chunks := Split(data, nonce, embedLen);
    var m := PayloadLength(embedLen);
    ScanSplitPrefix(st, data, nonce, embedLen, MessagePartitions);
    assert chunks[..MessagePartitions] == chunks;
    assert Padded(data, embedLen)[..MessagePartitions * m] == Padded(data, embedLen);
  }

  /** The padded data of each message, in order. */
  function PaddedAll(datas: seq<seq<byte>>, embedLen: nat): (padded: seq<seq<byte>>)
    requires embedLen > RandomnessLength
    ensures |padded| == |datas|
    ensures forall i :: 0 <= i < |datas| ==> padded[i] == Padded(datas[i], embedLen)
  {
    seq(|datas|, i requires 0 <= i < |datas| => Padded(datas[i], embedLen))
  }

  /** Scanning the chunks of several messages, one message after another,
      yields each message's padded data in turn. */
  lemma {:induction false} ScanAllSplits(nonces: seq<seq<byte>>, datas: seq<seq<byte>>, embedLen: nat)
    requires |nonces| == |datas| && embedLen > RandomnessLength
    requires forall j :: 0 <= j < |nonces| ==> |nonces[j]| == RandomnessLength
    requires StrictlyAscending(nonces)
    ensures var chunks := AllSplits(nonces, datas, embedLen);
      && AllWellFormed(chunks)
      && ScanFrom(Start, chunks).messages == PaddedAll(datas, embedLen)
      && (nonces != [] ==> ScanFrom(Start, chunks).prefix == nonces[|nonces| - 1])
  {
    if nonces != [] {
      var n := |nonces| - 1;
      assert StrictlyAscending(nonces[..n]);
      ScanAllSplits(nonces[..n], datas[..n], embedLen);
      ScanNextSplit(nonces, datas, embedLen);
    }
  }

  /** The step of `ScanAllSplits`: the last message's split, scanned after
      the others, adds that message's padded data. */
  lemma {:induction false} ScanNextSplit(nonces: seq<seq<byte>>, datas: seq<seq<byte>>, embedLen: nat)
    requires |nonces| == |datas| > 0 && embedLen > RandomnessLength
    requires forall j :: 0 <= j < |nonces| ==> |nonces[j]| == RandomnessLength
    requires StrictlyAscending(nonces)
    requires var n := |nonces| - 1;
      var earlier := AllSplits(nonces[..n], datas[..n], embedLen);
      && AllWellFormed(earlier)
      && ScanFrom(Start, earlier).messages == PaddedAll(datas[..n], embedLen)
      && (n > 0 ==> ScanFrom(Start, earlier).prefix == nonces[n - 1])
    ensures var chunks := AllSplits(nonces, datas, embedLen);
      && AllWellFormed(chunks)
      && ScanFrom(Start, chunks).messages == PaddedAll(datas, embedLen)
      && ScanFrom(Start, chunks).prefix == nonces[|nonces| - 1]
  {
    var n := |nonces| - 1;
    var earlier := AllSplits(nonces[..n], datas[..n], embedLen);
    var last := Split(datas[n], nonces[n], embedLen);
    assert AllSplits(nonces, datas, embedLen) == earlier + last;
    var st := ScanFrom(Start, earlier);
    assert st.prefix != nonces[n] by {
      if n > 0 {
        assert Less(nonces[n - 1], nonces[n]);
        LessIrreflexive(nonces[n]);
      }
    }
    ScanSplit(st, datas[n], nonces[n], embedLen);
    ScanFromAppend(Start, earlier, last);
    PaddedAllSnoc(datas, embedLen);
  }

  lemma {:induction false} PaddedAllSnoc(datas: seq<seq<byte>>, embedLen: nat)
    requires |datas| > 0 && embedLen > RandomnessLength
    ensures var n := |datas| - 1;
      PaddedAll(datas, embedLen) == PaddedAll(datas[..n], embedLen) + [Padded(datas[n], embedLen)]
  {
  }

  /** Round trip for several messages with distinct nonces, listed in
      ascending nonce order: any permutation of all their chunks reassembles
      into exactly their padded data, in that order, one message each. */
  lemma {:induction false} ReassembleSplits(nonces: seq<seq<byte>>, datas: seq<seq<byte>>, embedLen: nat, received: seq<seq<byte>>)
    requires |nonces| == |datas| && embedLen > RandomnessLength
    requires forall j :: 0 <= j < |nonces| ==> |nonces[j]| == RandomnessLength
    requires StrictlyAscending(nonces)
    requires multiset(received) == multiset(AllSplits(nonces, datas, embedLen))
    ensures AllWellFormed(received)
      && Reassemble(received) == PaddedAll(datas, embedLen)
  {
    var chunks := AllSplits(nonces, datas, embedLen);
    ScanAllSplits(nonces, datas, embedLen);
    AllSplitsAscending(nonces, datas, embedLen);
    AscendingIsSorted(chunks);
    WellFormedPermutation(chunks, received);
    SortedPermutationUnique(chunks, SortedChunks(received));
  }

  /** Round trip for one message: any permutation of its eight chunks
      reassembles into a single message, the data cut or zero-padded to the
      room of eight chunks; data that fits comes back as its prefix. */
  lemma {:induction false} RoundTrip(data: seq<byte>, nonce: seq<byte>, embedLen: nat, received: seq<seq<byte>>)
    requires |nonce| == RandomnessLength && embedLen > RandomnessLength
    requires multiset(received) == multiset(Split(data, nonce, embedLen))
    ensures AllWellFormed(received) && Reassemble(received) == [Padded(data, embedLen)]
    ensures |data| <= MessagePartitions * PayloadLength(embedLen) ==>
      Padded(data, embedLen)[..|data|] == data
  {
    assert AllSplits([nonce], [data], embedLen) == Split(data, nonce, embedLen) by {
      assert [nonce][..0] == [] && [data][..0] == [];
    }
    ReassembleSplits([nonce], [data], embedLen, received);
  }
}
