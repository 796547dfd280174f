/** The reassembly half of the long-message codec, `compileMessages`: sort
    the decrypted chunks, then scan them, opening a message whenever the
    nonce changes and appending the payload of every chunk whose position
    byte differs from the last one accepted. */
module Reassembly {
  import opened Bytes
  import opened Sorting
  import opened Splitting

  /** A chunk long enough to hold a nonce and a position byte; shorter ones
      make the slicing of `compileMessages` fail. */
  predicate WellFormed(chunk: seq<byte>)
  {
    |chunk| > RandomnessLength
  }

  predicate AllWellFormed(chunks: seq<seq<byte>>)
  {
    forall k :: 0 <= k < |chunks| ==> WellFormed(chunks[k])
  }

  /** The nonce a chunk opens with. */
  function Prefix(chunk: seq<byte>): (nonce: seq<byte>)
    requires WellFormed(chunk)
  {
    chunk[..RandomnessLength]
  }

  /** The position byte of a chunk. */
  function Index(chunk: seq<byte>): (index: byte)
    requires WellFormed(chunk)
  {
    chunk[RandomnessLength]
  }

  /** The local state of the scan loop: `currentPrefix`, `currentIndex` and
      `completeMessages`. */
  datatype ScanState = ScanState(prefix: seq<byte>, index: byte, messages: seq<seq<byte>>)

  /** Before the first chunk: no prefix, index 0, no messages. */
  const Start := ScanState([], 0, [])

  /** Once a prefix has been seen there is a message to append to. */
  predicate Consistent(st: ScanState)
  {
    st.prefix != [] ==> st.messages != []
  }

  /** One iteration of the scan loop. Whichever branch is taken, the scan
      afterwards tracks this chunk's nonce and position byte. */
  function Step(st: ScanState, chunk: seq<byte>): (r: ScanState)
    requires Consistent(st) && WellFormed(chunk)
    ensures Consistent(r)
    ensures r.prefix == Prefix(chunk) && r.index == Index(chunk)
  {
    if st.prefix == Prefix(chunk) then
      if st.index == Index(chunk) then st
      else
        var last := |st.messages| - 1;
        ScanState(st.prefix, Index(chunk), st.messages[last := st.messages[last] + Payload(chunk)])
    else
      ScanState(Prefix(chunk), Index(chunk), st.messages + [Payload(chunk)])
  }

  /** The scan loop run over `chunks` from state `st`. */
  function ScanFrom(st: ScanState, chunks: seq<seq<byte>>): (r: ScanState)
    requires Consistent(st) && AllWellFormed(chunks)
    ensures Consistent(r)
    ensures chunks != [] ==> r.prefix == Prefix(chunks[|chunks| - 1]) && r.index == Index(chunks[|chunks| - 1])
    decreases |chunks|
  {
    if chunks == [] then st
    else Step(ScanFrom(st, chunks[..|chunks| - 1]), chunks[|chunks| - 1])
  }

  /** Well-formedness depends only on which chunks there are. */
  lemma {:induction false} WellFormedPermutation(a: seq<seq<byte>>, b: seq<seq<byte>>)
    requires AllWellFormed(a) && multiset(a) == multiset(b)
    ensures AllWellFormed(b)
  {
    forall k | 0 <= k < |b| ensures WellFormed(b[k]) {
      assert b[k] in multiset(a);
      var j :| 0 <= j < |a| && a[j] == b[k];
    }
  }

  /** What `compileMessages` returns for the decrypted chunks: the scan of
      their sorted order. There are no messages exactly when there are no
      chunks, and never more messages than chunks. */
  function Reassemble(chunks: seq<seq<byte>>): (messages: seq<seq<byte>>)
    requires AllWellFormed(chunks)
    ensures |messages| <= |chunks|
    ensures messages == [] <==> chunks == []
  {
    var sorted := SortedChunks(chunks);
    WellFormedPermutation(chunks, sorted);
    assert |sorted| == |multiset(sorted)| == |chunks|;
    ScanCount(Start, sorted);
    ScanFrom(Start, sorted).messages
  }

  /** Each chunk opens at most one message, and a non-empty scan from the
      start has at least one. */
  lemma {:induction false} ScanCount(st: ScanState, chunks: seq<seq<byte>>)
    requires Consistent(st) && AllWellFormed(chunks)
    ensures |st.messages| <= |ScanFrom(st, chunks).messages| <= |st.messages| + |chunks|
    ensures chunks != [] ==> ScanFrom(st, chunks).messages != []
  {
    if chunks != [] {
      ScanCount(st, chunks[..|chunks| - 1]);
    }
  }

  /** Go's `compileMessages`, with each decrypted point's `Data()` already
      taken: copy the chunks into a fresh slice, sort it in place, and scan
      it once. */
  method CompileMessages(decrypted: seq<seq<byte>>) returns (completeMessages: seq<seq<byte>>)
    requires AllWellFormed(decrypted)
    ensures completeMessages == Reassemble(decrypted)
  {
    var messageChunks := new seq<byte>[|decrypted|](i requires 0 <= i < |decrypted| => decrypted[i]);
    assert messageChunks[..] == decrypted;
    completeMessages := [];
    var list := new SortableBytesList(messageChunks);
    list.Sort();
    assert messageChunks[..] == SortedChunks(decrypted);
    WellFormedPermutation(decrypted, messageChunks[..]);
    ghost var sorted := messageChunks[..];
    var currentPrefix: seq<byte> := [];
    var currentIndex: byte := 0;
    for i := 0 to messageChunks.Length
      invariant messageChunks[..] == sorted
      invariant ScanState(currentPrefix, currentIndex, completeMessages) == ScanFrom(Start, sorted[..i])
    {
      var chunk := messageChunks[i];
      assert sorted[..i + 1] == sorted[..i] + [chunk];
      assert ScanFrom(Start, sorted[..i + 1]) == Step(ScanFrom(Start, sorted[..i]), chunk);
      var prefix := chunk[..RandomnessLength];
      var index := chunk[RandomnessLength];
      var data := chunk[RandomnessLength + 1..];
      var samePrefix := IsDataEqual(currentPrefix, prefix);
      if samePrefix {
        if currentIndex == index {
          continue;
        } else {
          currentIndex := index;
          var last := |completeMessages| - 1;
          var updatedMessage := completeMessages[last] + data;
          completeMessages := completeMessages[last := updatedMessage];
        }
      } else {
        currentPrefix := prefix;
        currentIndex := index;
        completeMessages := completeMessages + [data];
      }
    }
    assert sorted[..|sorted|] == sorted;
  }

  /** Running the scan over `a` then `b` is running it over `a + b`. */
  lemma {:induction false} ScanFromAppend(st: ScanState, a: seq<seq<byte>>, b: seq<seq<byte>>)
    requires Consistent(st) && AllWellFormed(a) && AllWellFormed(b)
    ensures AllWellFormed(a + b)
    ensures ScanFrom(st, a + b) == ScanFrom(ScanFrom(st, a), b)
  {
    assert AllWellFormed(a + b) by {
      forall k | 0 <= k < |a + b| ensures WellFormed((a + b)[k]) {
        if k >= |a| { assert (a + b)[k] == b[k - |a|]; }
      }
    }
    if b == [] {
      assert a + b == a;
    } else {
      assert (a + b)[..|a + b| - 1] == a + b[..|b| - 1];
      ScanFromAppend(st, a, b[..|b| - 1]);
    }
  }

  /** The nonces in the order in which runs of equal nonce open: one entry
      per chunk whose nonce differs from its predecessor's. Every chunk's
      nonce is listed, and the last entry is the last chunk's nonce. */
  function RunNonces(chunks: seq<seq<byte>>): (nonces: seq<seq<byte>>)
    requires AllWellFormed(chunks)
    ensures forall k :: 0 <= k < |chunks| ==> Prefix(chunks[k]) in nonces
    ensures chunks != [] ==> nonces != [] && nonces[|nonces| - 1] == Prefix(chunks[|chunks| - 1])
    decreases |chunks|
  {
    if chunks == [] then []
    else
      var front := chunks[..|chunks| - 1];
      var last := chunks[|chunks| - 1];
      var nonces := RunNonces(front);
      assert forall k :: 0 <= k < |front| ==> front[k] == chunks[k];
      if front != [] && Prefix(front[|front| - 1]) == Prefix(last) then nonces
      else nonces + [Prefix(last)]
  }

  /** Only chunks' nonces are listed by `RunNonces`. */
  lemma {:induction false} RunNoncesFromChunks(chunks: seq<seq<byte>>, n: seq<byte>)
    requires AllWellFormed(chunks) && n in RunNonces(chunks)
    ensures exists k :: 0 <= k < |chunks| && Prefix(chunks[k]) == n
  {
    var front := chunks[..|chunks| - 1];
    var last := chunks[|chunks| - 1];
    if n != Prefix(last) {
      assert n in RunNonces(front);
      RunNoncesFromChunks(front, n);
      var k :| 0 <= k < |front| && Prefix(front[k]) == n;
      assert chunks[k] == front[k];
    }
  }

  /** The chunks that carry nonce `n`, in the order given. */
  function ChunksWith(chunks: seq<seq<byte>>, n: seq<byte>): (run: seq<seq<byte>>)
    requires AllWellFormed(chunks)
    ensures AllWellFormed(run)
    ensures forall k :: 0 <= k < |run| ==> Prefix(run[k]) == n
    decreases |chunks|
  {
    if chunks == [] then []
    else
      var front := chunks[..|chunks| - 1];
      var last := chunks[|chunks| - 1];
      ChunksWith(front, n) + (if Prefix(last) == n then [last] else [])
  }

  /** The message one run of chunks spells: the payloads one after the
      other, leaving out every chunk whose position byte repeats that of the
      chunk before it. */
  function Joined(run: seq<seq<byte>>): (message: seq<byte>)
    requires AllWellFormed(run)
    decreases |run|
  {
    if run == [] then []
    else
      var front := run[..|run| - 1];
      var last := run[|run| - 1];
      var repeated := front != [] && Index(front[|front| - 1]) == Index(last);
      Joined(front) + (if repeated then [] else Payload(last))
  }

  predicate StrictlyAscending(nonces: seq<seq<byte>>)
  {
    forall i, j :: 0 <= i < j < |nonces| ==> Less(nonces[i], nonces[j])
  }

  /** When no chunk carries nonce `n`, none is picked out for it. */
  lemma {:induction false} ChunksWithAbsent(chunks: seq<seq<byte>>, n: seq<byte>)
    requires AllWellFormed(chunks)
    requires forall k :: 0 <= k < |chunks| ==> Prefix(chunks[k]) != n
    ensures ChunksWith(chunks, n) == []
  {
    if chunks != [] {
      ChunksWithAbsent(chunks[..|chunks| - 1], n);
    }
  }

  /** The joined run of each of `nonces` in turn. */
  function JoinedRuns(chunks: seq<seq<byte>>, nonces: seq<seq<byte>>): (messages: seq<seq<byte>>)
    requires AllWellFormed(chunks)
    ensures |messages| == |nonces|
    decreases |nonces|
  {
    if nonces == [] then []
    else JoinedRuns(chunks, nonces[..|nonces| - 1]) + [Joined(ChunksWith(chunks, nonces[|nonces| - 1]))]
  }

  /** The `k`-th of the joined runs is that of the `k`-th nonce. */
  lemma {:induction false} JoinedRunsAt(chunks: seq<seq<byte>>, nonces: seq<seq<byte>>)
    requires AllWellFormed(chunks)
    ensures forall k :: 0 <= k < |nonces| ==> JoinedRuns(chunks, nonces)[k] == Joined(ChunksWith(chunks, nonces[k]))
  {
    if nonces != [] {
      var front := nonces[..|nonces| - 1];
      JoinedRunsAt(chunks, front);
      assert forall k :: 0 <= k < |front| ==> front[k] == nonces[k];
    }
  }

  /** The scan's messages correspond to the runs: one per nonce, in the
      order `RunNonces` lists them, which rises strictly, each the joined
      run of the chunks carrying that nonce. */
  predicate Grouped(chunks: seq<seq<byte>>)
    requires AllWellFormed(chunks)
  {
    StrictlyAscending(RunNonces(chunks)) && ScanFrom(Start, chunks).messages == JoinedRuns(chunks, RunNonces(chunks))
  }

  /** The chunks for a nonce other than the last chunk's are those the
      other chunks hold for it. */
  lemma {:induction false} ChunksWithOther(chunks: seq<seq<byte>>, n: seq<byte>)
    requires AllWellFormed(chunks) && chunks != [] && Prefix(chunks[|chunks| - 1]) != n
    ensures ChunksWith(chunks, n) == ChunksWith(chunks[..|chunks| - 1], n)
  {
  }

  /** The runs of nonces other than the last chunk's do not see it. */
  lemma {:induction false} JoinedRunsOther(chunks: seq<seq<byte>>, nonces: seq<seq<byte>>)
    requires AllWellFormed(chunks) && chunks != []
    requires forall k :: 0 <= k < |nonces| ==> nonces[k] != Prefix(chunks[|chunks| - 1])
    ensures JoinedRuns(chunks, nonces) == JoinedRuns(chunks[..|chunks| - 1], nonces)
  {
    if nonces != [] {
      var front := nonces[..|nonces| - 1];
      assert forall k :: 0 <= k < |front| ==> front[k] == nonces[k];
      JoinedRunsOther(chunks, front);
      ChunksWithOther(chunks, nonces[|nonces| - 1]);
    }
  }

  /** Nonces below the last one in a strictly rising list all differ from it. */
  lemma {:induction false} BelowLast(nonces: seq<seq<byte>>)
    requires StrictlyAscending(nonces) && nonces != []
    ensures var front := nonces[..|nonces| - 1];
      forall k :: 0 <= k < |front| ==> front[k] != nonces[|nonces| - 1]
  {
    var front := nonces[..|nonces| - 1];
    var last := nonces[|nonces| - 1];
    LessIrreflexive(last);
    forall k | 0 <= k < |front| ensures front[k] != last {
      assert front[k] == nonces[k];
      assert Less(nonces[k], last);
    }
  }

  /** When the last two chunks share a nonce, that nonce's joined run grows
      by the last payload, unless the position byte repeats. */
  lemma {:induction false} JoinedRunGrows(chunks: seq<seq<byte>>)
    requires AllWellFormed(chunks) && |chunks| >= 2
    requires Prefix(chunks[|chunks| - 2]) == Prefix(chunks[|chunks| - 1])
    ensures var front := chunks[..|chunks| - 1];
      var c := chunks[|chunks| - 1];
      var p := Prefix(c);
      Joined(ChunksWith(chunks, p)) ==
        Joined(ChunksWith(front, p)) + (if Index(chunks[|chunks| - 2]) == Index(c) then [] else Payload(c))
  {
    var front := chunks[..|chunks| - 1];
    var c := chunks[|chunks| - 1];
    var p := Prefix(c);
    var prev := front[|front| - 1];
    assert prev == chunks[|chunks| - 2];
    var run := ChunksWith(front, p);
    assert ChunksWith(chunks, p) == run + [c];
    assert run == ChunksWith(front[..|front| - 1], p) + [prev];
    assert (run + [c])[..|run|] == run;
  }

  /** The scan step for a chunk with its predecessor's nonce: the last
      message grows by its payload, unless its position byte repeats, and
      the earlier messages stay as they were. */
  lemma {:induction false} ScanExtends(chunks: seq<seq<byte>>)
    requires AllWellFormed(chunks) && |chunks| >= 2
    requires Prefix(chunks[|chunks| - 2]) == Prefix(chunks[|chunks| - 1])
    ensures var front := chunks[..|chunks| - 1];
      var c := chunks[|chunks| - 1];
      var before := ScanFrom(Start, front).messages;
      var after := ScanFrom(Start, chunks).messages;
      && before != []
      && after == before[..|before| - 1] + [before[|before| - 1] + (if Index(chunks[|chunks| - 2]) == Index(c) then [] else Payload(c))]
  {
    var front := chunks[..|chunks| - 1];
    var c := chunks[|chunks| - 1];
    var prev := chunks[|chunks| - 2];
    assert front[|front| - 1] == prev;
    var st := ScanFrom(Start, front);
    assert st.prefix == Prefix(c) && st.index == Index(prev);
    assert ScanFrom(Start, chunks) == Step(st, c);
    var last := |st.messages| - 1;
    if Index(prev) == Index(c) {
      assert st.messages[last] + [] == st.messages[last];
      assert st.messages == st.messages[..last] + [st.messages[last]];
    } else {
      assert st.messages[last := st.messages[last] + Payload(c)] == st.messages[..last] + [st.messages[last] + Payload(c)];
    }
  }

  /** When the last two chunks share a nonce, the runs open in the same order. */
  lemma {:induction false} SameRunNonces(chunks: seq<seq<byte>>)
    requires AllWellFormed(chunks) && |chunks| >= 2
    requires Prefix(chunks[|chunks| - 2]) == Prefix(chunks[|chunks| - 1])
    ensures var nonces := RunNonces(chunks[..|chunks| - 1]);
      RunNonces(chunks) == nonces && nonces[|nonces| - 1] == Prefix(chunks[|chunks| - 1])
  {
    var front := chunks[..|chunks| - 1];
    assert front[|front| - 1] == chunks[|chunks| - 2];
  }

  /** A chunk with the nonce of its predecessor extends the last message,
      or leaves it alone when its position byte repeats. */
  lemma {:induction false} ExtendRun(chunks: seq<seq<byte>>)
    requires AllWellFormed(chunks) && |chunks| >= 2
    requires Prefix(chunks[|chunks| - 2]) == Prefix(chunks[|chunks| - 1])
    requires Grouped(chunks[..|chunks| - 1])
    ensures Grouped(chunks)
  {
    var front := chunks[..|chunks| - 1];
    var nonces := RunNonces(front);
    SameRunNonces(chunks);
    var earlier := nonces[..|nonces| - 1];
    var p := Prefix(chunks[|chunks| - 1]);
    assert nonces == earlier + [p];
    BelowLast(nonces);
    JoinedRunsOther(chunks, earlier);
    JoinedRunGrows(chunks);
    ScanExtends(chunks);
  }

  /** In a sorted list, a chunk whose nonce differs from its predecessor's
      carries a nonce larger than every nonce before it, so no earlier chunk
      carries it. */
  lemma {:induction false} NewNonceIsLargest(chunks: seq<seq<byte>>)
    requires AllWellFormed(chunks) && Sorted(chunks) && |chunks| >= 1
    requires |chunks| >= 2 ==> Prefix(chunks[|chunks| - 2]) != Prefix(chunks[|chunks| - 1])
    requires StrictlyAscending(RunNonces(chunks[..|chunks| - 1]))
    ensures var front := chunks[..|chunks| - 1];
      var p := Prefix(chunks[|chunks| - 1]);
      && (forall k :: 0 <= k < |RunNonces(front)| ==> Less(RunNonces(front)[k], p))
      && (forall k :: 0 <= k < |front| ==> Prefix(front[k]) != p)
  {
    var front := chunks[..|chunks| - 1];
    var c := chunks[|chunks| - 1];
    var before := RunNonces(front);
    var p := Prefix(c);
    if front != [] {
      var prev := front[|front| - 1];
      assert prev == chunks[|chunks| - 2];
      assert !Less(c, prev);
      PrefixOrder(prev, c, RandomnessLength);
      forall k | 0 <= k < |before| ensures Less(before[k], p) {
        if k < |before| - 1 {
          LessTransitive(before[k], before[|before| - 1], p);
        }
      }
    }
    forall k | 0 <= k < |front| ensures Prefix(front[k]) != p {
      var j :| 0 <= j < |before| && before[j] == Prefix(front[k]);
      LessIrreflexive(p);
    }
  }

  /** A nonce larger than all listed ones keeps the list strictly ascending. */
  lemma {:induction false} AscendingSnoc(nonces: seq<seq<byte>>, p: seq<byte>)
    requires StrictlyAscending(nonces)
    requires forall k :: 0 <= k < |nonces| ==> Less(nonces[k], p)
    ensures StrictlyAscending(nonces + [p])
  {
    var all := nonces + [p];
    forall i, j | 0 <= i < j < |all| ensures Less(all[i], all[j]) {
      if j < |nonces| {
        assert all[i] == nonces[i] && all[j] == nonces[j];
      }
    }
  }

  /** A chunk whose nonce differs from its predecessor's opens a message
      of its own. */
  lemma {:induction false} OpenRun(chunks: seq<seq<byte>>)
    requires AllWellFormed(chunks) && Sorted(chunks) && |chunks| >= 1
    requires |chunks| >= 2 ==> Prefix(chunks[|chunks| - 2]) != Prefix(chunks[|chunks| - 1])
    requires Grouped(chunks[..|chunks| - 1])
    ensures Grouped(chunks)
  {
    var front := chunks[..|chunks| - 1];
    var c := chunks[|chunks| - 1];
    var p := Prefix(c);
    var nonces := RunNonces(front);
    assert RunNonces(chunks) == nonces + [p];
    NewNonceIsLargest(chunks);
    AscendingSnoc(nonces, p);
    assert forall k :: 0 <= k < |nonces| ==> nonces[k] != p by {
      LessIrreflexive(p);
    }
    JoinedRunsOther(chunks, nonces);
    ChunksWithAbsent(front, p);
    assert (nonces + [p])[..|nonces|] == nonces;
    assert ChunksWith(chunks, p) == [c];
    assert Joined([c]) == Payload(c) by {
      assert [c][..0] == [];
    }
    var st := ScanFrom(Start, front);
    assert st.prefix != p by {
      if front != [] {
        assert st.prefix == Prefix(front[|front| - 1]) == Prefix(chunks[|chunks| - 2]);
      }
    }
    assert ScanFrom(Start, chunks).messages == st.messages + [Payload(c)];
  }

  /** Induction over the sorted list: every prefix of it is grouped. */
  lemma {:induction false} ScanGrouped(chunks: seq<seq<byte>>)
    requires AllWellFormed(chunks) && Sorted(chunks)
    ensures Grouped(chunks)
  {
    if chunks != [] {
      var front := chunks[..|chunks| - 1];
      assert forall k :: 0 <= k < |front| ==> front[k] == chunks[k];
      ScanGrouped(front);
      if |chunks| >= 2 && Prefix(chunks[|chunks| - 2]) == Prefix(chunks[|chunks| - 1]) {
        ExtendRun(chunks);
      } else {
        OpenRun(chunks);
      }
    }
  }

  /** On a sorted list of chunks the scan opens one message per distinct
      nonce, in strictly ascending nonce order, and the message for a nonce
      is the run of the chunks carrying it, with repeated position bytes
      left out. */
  lemma {:induction false} ScanGroups(chunks: seq<seq<byte>>)
    requires AllWellFormed(chunks) && Sorted(chunks)
    ensures var nonces := RunNonces(chunks);
      var messages := ScanFrom(Start, chunks).messages;
      && StrictlyAscending(nonces)
      && |messages| == |nonces|
      && forall k :: 0 <= k < |nonces| ==> messages[k] == Joined(ChunksWith(chunks, nonces[k]))
  {
    ScanGrouped(chunks);
    JoinedRunsAt(chunks, RunNonces(chunks));
  }

  /** What `compileMessages` returns, stated over the chunks as received:
      one message per distinct nonce among them, in strictly ascending nonce
      order; the message for a nonce joins that nonce's chunks in sorted
      order, leaving out each chunk whose position byte repeats that of the
      chunk before it. */
  lemma {:induction false} ReassembleGroups(chunks: seq<seq<byte>>)
    requires AllWellFormed(chunks)
    ensures var sorted := SortedChunks(chunks);
      AllWellFormed(sorted) &&
      var nonces := RunNonces(sorted);
      var messages := Reassemble(chunks);
      && StrictlyAscending(nonces)
      && (forall k :: 0 <= k < |chunks| ==> Prefix(chunks[k]) in nonces)
      && (forall n :: n in nonces ==> exists k :: 0 <= k < |chunks| && Prefix(chunks[k]) == n)
      && |messages| == |nonces|
      && (forall k :: 0 <= k < |nonces| ==> messages[k] == Joined(ChunksWith(sorted, nonces[k])))
  {
    var sorted := SortedChunks(chunks);
    WellFormedPermutation(chunks, sorted);
    ScanGroups(sorted);
    var nonces := RunNonces(sorted);
    forall k | 0 <= k < |chunks| ensures Prefix(chunks[k]) in nonces {
      assert chunks[k] in multiset(sorted);
      var j :| 0 <= j < |sorted| && sorted[j] == chunks[k];
    }
    forall n | n in nonces ensures exists k :: 0 <= k < |chunks| && Prefix(chunks[k]) == n {
      RunNoncesFromChunks(sorted, n);
      var j :| 0 <= j < |sorted| && Prefix(sorted[j]) == n;
      assert sorted[j] in multiset(chunks);
      var k :| 0 <= k < |chunks| && chunks[k] == sorted[j];
    }
  }

  /** The output depends only on which chunks arrived, not on their order:
      a shuffle of the chunks does not change it. */
  lemma {:induction false} ReassembleIgnoresOrder(a: seq<seq<byte>>, b: seq<seq<byte>>)
    requires AllWellFormed(a) && multiset(a) == multiset(b)
    ensures AllWellFormed(b) && Reassemble(a) == Reassemble(b)
  {
    WellFormedPermutation(a, b);
    SortedPermutationUnique(SortedChunks(a), SortedChunks(b));
  }

  /** A copy of a sorted list's `i`-th element placed right behind it
      keeps the list sorted. */
  lemma {:induction false} CopyBehindSorted(sorted: seq<seq<byte>>, i: nat)
    requires Sorted(sorted) && i < |sorted|
    ensures Sorted(sorted[..i + 1] + [sorted[i]] + sorted[i + 1..])
  {
    var doubled := sorted[..i + 1] + [sorted[i]] + sorted[i + 1..];
    forall k | 0 <= k < |doubled| ensures doubled[k] == sorted[if k <= i then k else k - 1] {
      if k <= i {
        assert doubled[k] == sorted[..i + 1][k];
      } else if k > i + 1 {
        assert doubled[k] == sorted[i + 1..][k - i - 2];
      }
    }
    forall j, l | 0 <= j < l < |doubled| ensures !Less(doubled[l], doubled[j]) {
      var j' := if j <= i then j else j - 1;
      var l' := if l <= i then l else l - 1;
      if j' == l' {
        LessIrreflexive(sorted[j']);
      }
    }
  }

  /** The scan skips a copy of a chunk placed right behind it. */
  lemma {:induction false} ScanSkipsCopy(sorted: seq<seq<byte>>, i: nat)
    requires AllWellFormed(sorted) && i < |sorted|
    ensures var doubled := sorted[..i + 1] + [sorted[i]] + sorted[i + 1..];
      AllWellFormed(doubled) && ScanFrom(Start, doubled) == ScanFrom(Start, sorted)
  {
    var c := sorted[i];
    var head, tail := sorted[..i + 1], sorted[i + 1..];
    assert sorted == head + tail;
    assert AllWellFormed(head) by {
      assert forall k :: 0 <= k < |head| ==> head[k] == sorted[k];
    }
    assert AllWellFormed(tail) by {
      assert forall k :: 0 <= k < |tail| ==> tail[k] == sorted[i + 1 + k];
    }
    ScanFromAppend(Start, head, tail);
    ScanFromAppend(Start, head + [c], tail);
    assert (head + [c])[..|head|] == head;
    assert ScanFrom(Start, head + [c]) == ScanFrom(Start, head);
  }

  /** Sending a chunk again changes nothing: the copy sorts next to the
      original and is skipped because it repeats its position byte. */
  lemma {:induction false} DuplicateChunkIgnored(chunks: seq<seq<byte>>, c: seq<byte>)
    requires AllWellFormed(chunks) && c in chunks
    ensures AllWellFormed(chunks + [c]) && Reassemble(chunks + [c]) == Reassemble(chunks)
  {
    var sorted := SortedChunks(chunks);
    WellFormedPermutation(chunks, sorted);
    assert c in multiset(sorted);
    var i :| 0 <= i < |sorted| && sorted[i] == c;
    var doubled := sorted[..i + 1] + [c] + sorted[i + 1..];
    assert sorted == sorted[..i + 1] + sorted[i + 1..];
    assert multiset(doubled) == multiset(sorted) + multiset{c} == multiset(chunks + [c]);
    CopyBehindSorted(sorted, i);
    ScanSkipsCopy(sorted, i);
    WellFormedPermutation(doubled, chunks + [c]);
    SortedPermutationUnique(doubled, SortedChunks(chunks + [c]));
  }

  /** The nonce, position byte and payload of a chunk put together from them. */
  lemma {:induction false} ChunkFields(nonce: seq<byte>, i: byte, p: seq<byte>)
    requires |nonce| == RandomnessLength
    ensures var c := nonce + [i] + p;
      WellFormed(c) && Prefix(c) == nonce && Index(c) == i && Payload(c) == p
  {
    var c := nonce + [i] + p;
    assert c[..RandomnessLength] == nonce;
    assert c[RandomnessLength + 1..] == p;
  }

  /** Two chunks in the wrong order are swapped by the sort. */
  lemma {:induction false} SortPair(a: seq<byte>, b: seq<byte>)
    requires Less(a, b)
    ensures SortedChunks([b, a]) == [a, b]
  {
    LessAsymmetric(a, b);
    assert Sorted([a, b]);
    assert multiset([a, b]) == multiset([b, a]);
    SortedPermutationUnique([a, b], SortedChunks([b, a]));
  }

  /** A second chunk for the nonce and position of the first is skipped. */
  lemma {:induction false} ScanSameSlot(first: seq<byte>, second: seq<byte>)
    requires WellFormed(first) && WellFormed(second)
    requires Prefix(first) == Prefix(second) && Index(first) == Index(second)
    ensures AllWellFormed([first, second]) && ScanFrom(Start, [first, second]).messages == [Payload(first)]
  {
    var afterFirst := ScanState(Prefix(first), Index(first), [Payload(first)]);
    assert [first, second][..1] == [first] && [first][..0] == [];
    assert ScanFrom(Start, [first]) == afterFirst;
  }

  /** Two copies of one position of one message that disagree in their
      payload: the copy that sorts first, the one whose payload is less, is
      kept and the other skipped, whatever order they arrive in. */
  lemma {:induction false} ConflictingCopyKeepsLesser(nonce: seq<byte>, i: byte, p: seq<byte>, q: seq<byte>)
    requires |nonce| == RandomnessLength && Less(p, q)
    ensures var first, second := nonce + [i] + p, nonce + [i] + q;
      && AllWellFormed([second, first])
      && Reassemble([second, first]) == [p]
      && Reassemble([first, second]) == [p]
  {
    var w: seq<byte> := nonce + [i];
    ChunkFields(nonce, i, p);
    ChunkFields(nonce, i, q);
    LessBehindCommonPrefix(w, p, q);
    SortPair(w + p, w + q);
    ScanSameSlot(w + p, w + q);
    assert multiset([w + q, w + p]) == multiset([w + p, w + q]);
    ReassembleIgnoresOrder([w + q, w + p], [w + p, w + q]);
  }
}
