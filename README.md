# Long-message chunk codec of crypto-voting, in Dafny

This project models the long-message codec of `testLongMessage.go` in the
crypto-voting repository. It lets a ballot longer than one group element
travel through the threshold ElGamal pipeline, and it has two halves:

- **Split** (`encryptLongMessage`). Every message becomes exactly eight
  buffers of `EmbedLen` bytes each. A buffer holds the message's 16-byte
  nonce, then one position byte `0..7`, then the next `M = EmbedLen - 17`
  bytes of the data. The rest of the buffer stays zero.
- **Reassembly** (`compileMessages`). It takes the decrypted buffers of any
  number of messages, mixed in any order, and sorts them lexicographically
  (`SortableBytesList`, `sort.Sort`). It then scans them once:
  - a change of nonce opens a new message;
  - a chunk with the same nonce appends its payload (bytes from 17 on) to the
    last message;
  - a chunk with the same nonce whose position byte repeats the one before it
    is skipped.

The model has five modules:

- `Bytes`: the `byte` type, Go's `min`, the order of `SortableBytesList.Less`
  as a function with its order laws, and `isDataEqual` as a loop method.
- `Sorting`: the `SortableBytesList` class over the chunk array, with `Swap`,
  `Less` as the source's byte loop, and `Sort`. `Sort` is an in-place
  insertion sort through `Less` and `Swap`. It is proved equal to a reference
  insertion sort on values, and a sorted permutation is shown to be unique.
- `Splitting`: the buffer construction of `encryptLongMessage` as a loop over
  fresh arrays filled with Go's `copy`. It is proved equal to the closed-form
  `Split`, and lemmas give the shape and payload of each chunk.
- `Reassembly`: the scan loop of `compileMessages` and the method itself.
  - The scan is the function `ScanFrom`, one `Step` per chunk.
  - The result is characterised per nonce: one message per distinct nonce, in
    ascending nonce order. Each message joins the payloads of that nonce's
    chunks in sorted order, leaving out repeated position bytes.
  - The result does not depend on the arrival order.
  - A resent chunk changes nothing.
  - Of two conflicting copies of one position, the one that sorts first is
    kept.
- `RoundTrip`: any permutation of the chunks of one or several splits,
  with distinct nonces, reassembles into each message's padded data, ordered
  by nonce.

**What comes back.** The code returns each message's data followed by zero
bytes, up to the room of eight chunks (`8 * M` bytes). A caller might expect
the round trip to return exactly `data`; the code differs in two ways:
- every payload is the whole tail of its buffer, so the zeros after a short
  data come back too;
- data longer than `8 * M` bytes loses its tail.

The model follows the code: `Splitting.Padded` is what comes back, and
`RoundTrip.RoundTrip` states that data which fits is a prefix of it.

## Model

| member | source | states |
|---|---|---|
| Bytes.Min | testLongMessage.go:205-210 | the result is at most each argument and equal to one of them |
| Bytes.LessDecidedAt | testLongMessage.go:216-219 | when two strings agree below position `k` and differ at `k`, below both lengths, `Less` holds exactly when the byte at `k` is smaller |
| Bytes.LessOfCommonPrefix | testLongMessage.go:216-221 | when no byte differs below the shorter length, `Less` holds exactly when the first string is shorter |
| Bytes.LessIrreflexive | testLongMessage.go:215-222 | no byte string is less than itself |
| Bytes.LessAsymmetric | testLongMessage.go:215-222 | `Less(a, b)` excludes `Less(b, a)` |
| Bytes.LessTransitive | testLongMessage.go:215-222 | `Less` is transitive |
| Bytes.LessTotal | testLongMessage.go:215-222 | two different byte strings are ordered one way or the other |
| Bytes.LessBehindCommonPrefix | testLongMessage.go:215-222 | behind a common prefix the order is decided by what follows it |
| Bytes.IsDataEqual | testLongMessage.go:225-236 | the result is true exactly when the two byte strings are equal (same length, same byte at every position) |
| Sorting.SortableBytesList.Swap | testLongMessage.go:214 | the elements at `i` and `j` are exchanged and every other element stays; the multiset is unchanged |
| Sorting.SortableBytesList.Less | testLongMessage.go:215-222 | the byte loop returns exactly the lexicographic order `Bytes.Less` of elements `i` and `j` |
| Sorting.SortableBytesList.Sort | testLongMessage.go:257 | afterwards the chunk array is sorted under `Less`, a permutation of what it held, and equal to the reference sort of the old contents |
| Sorting.SortedChunks | testLongMessage.go:257 | the reference sort returns a sorted permutation of its input |
| Sorting.SortedPermutationUnique | testLongMessage.go:257 | two sorted permutations of the same chunks are equal, so the output does not depend on how `sort.Sort` orders them |
| Splitting.Copy | testLongMessage.go:139-148 | Go's `copy` moves `min(hi - lo, len(src))` bytes of `src` to `dst[lo..]`, reports that count and leaves the rest of `dst` unchanged |
| Splitting.EncryptLongMessage | testLongMessage.go:112-159 | the eight buffers the loop builds are exactly the closed-form split of the data under the nonce |
| Splitting.ChunkParts | testLongMessage.go:133-150 | chunk `i` has `EmbedLen` bytes: the nonce, the position byte `i`, then the `i`-th payload-sized slice of the padded data |
| Splitting.SplitShape | testLongMessage.go:120-150 | a split is eight chunks of length `EmbedLen` that share the nonce, with position byte `i` in chunk `i`; their payloads, in order, spell the data cut or zero-filled to `8 * M` bytes |
| Splitting.PayloadOfChunk | testLongMessage.go:144-150 | chunk `i` carries the next `min(len(remaining), M)` bytes of the data, then zeros |
| Splitting.NextRemaining | testLongMessage.go:144-149 | each step shortens the remaining data by exactly the number of bytes it took |
| Reassembly.Step | testLongMessage.go:279-302 | after any chunk the scan tracks that chunk's nonce and position byte, and there is a message to append to |
| Reassembly.ScanFrom | testLongMessage.go:274-304 | after a non-empty scan the tracked nonce and position byte are those of the last chunk |
| Reassembly.ScanCount | testLongMessage.go:271-304 | each chunk opens at most one message, and a non-empty scan from the start has at least one |
| Reassembly.Reassemble | testLongMessage.go:239-307 | never more messages than chunks, and no message exactly when there is no chunk (the first chunk always opens one) |
| Reassembly.CompileMessages | testLongMessage.go:239-307 | the copy, the in-place sort and the scan loop return exactly `Reassemble` of the decrypted chunks |
| Reassembly.ScanFromAppend | testLongMessage.go:274-304 | scanning `a + b` is scanning `b` from where the scan of `a` ended |
| Reassembly.RunNonces | testLongMessage.go:297-301 | every chunk's nonce is among the nonces at which messages open, and the last one listed is the last chunk's |
| Reassembly.RunNoncesFromChunks | testLongMessage.go:297-301 | only nonces carried by some chunk open a message |
| Reassembly.ScanExtends | testLongMessage.go:279-296 | a chunk with its predecessor's nonce appends its payload to the last message, or adds nothing when its position byte repeats; every earlier message stays |
| Reassembly.NewNonceIsLargest | testLongMessage.go:297-301 | in sorted order a nonce that differs from the predecessor's is larger than every earlier one, so equal nonces are contiguous |
| Reassembly.JoinedRunsAt | testLongMessage.go:292-301 | the `k`-th joined run is the joined run of the chunks of the `k`-th nonce |
| Reassembly.ScanGroups | testLongMessage.go:271-304 | on a sorted list the scan gives one message per distinct nonce, in strictly ascending nonce order, each the joined run of that nonce's chunks |
| Reassembly.ReassembleGroups | testLongMessage.go:239-307 | for the chunks as received: the messages are listed by strictly ascending nonce, exactly the nonces the chunks carry, each message the payloads of its chunks in sorted order with repeated position bytes left out |
| Reassembly.ReassembleIgnoresOrder | testLongMessage.go:240-257 | any permutation of the received chunks gives the same output |
| Reassembly.DuplicateChunkIgnored | testLongMessage.go:281-282 | receiving a chunk a second time does not change the output |
| Reassembly.ConflictingCopyKeepsLesser | testLongMessage.go:281-287 | of two chunks with the same nonce and position byte but payloads `p < q`, in either order, only `p` is kept |
| RoundTrip.AllSplits | testLongMessage.go:112-159 | the chunks of several messages: eight per message, each `EmbedLen` long and opening with one of the nonces |
| RoundTrip.SplitAscending | testLongMessage.go:139-142 | the chunks of one split are in strictly ascending order |
| RoundTrip.AllSplitsAscending | testLongMessage.go:139-142 | with strictly ascending nonces, the splits one after another are in strictly ascending order, which is the sorted order |
| RoundTrip.ScanSplit | testLongMessage.go:271-304 | scanning one split, after a different nonce, adds exactly one message: that message's padded data |
| RoundTrip.ScanAllSplits | testLongMessage.go:271-304 | scanning the splits of several messages one after another gives each message's padded data in turn |
| RoundTrip.ReassembleSplits | testLongMessage.go:96-102 | any permutation of the chunks of several messages with distinct nonces, listed by ascending nonce, reassembles into their padded data in that order, one message each |
| RoundTrip.RoundTrip | testLongMessage.go:96-102 | any permutation of one message's eight chunks reassembles into the single padded data, and data that fits in eight chunks is its prefix |

## Left out

- `main2` (testLongMessage.go:18-110) and all of `testComplete.go`: benchmark drivers that create files, log times and print.
- `generateLongMessageEncryptions` (testLongMessage.go:162-199): it picks sample strings and appends library points; several messages' chunks side by side are modelled by `RoundTrip.AllSplits`.
- The kyber calls (`Embed`, `Data`, `EmbedLen`, `XORKeyStream`, `encryptMessage`): foreign elliptic-curve and randomness routines. `EmbedLen` is the parameter `embedLen`, the random nonce is an input, and embedding, encryption, shuffle, decryption and `Data()` are taken to return each buffer's bytes unchanged. The check of that pipeline (`checkDecryption`) is assumed, not proved.
- Nonce collisions: nonces are inputs, so two messages drawing the same nonce is not modelled; `RoundTrip.ReassembleSplits` requires distinct nonces.
- The `blankData` zeroing loop (testLongMessage.go:115-118): it only feeds `XORKeyStream`, which is replaced by the nonce input.
- The `messagePortions`, `elGamal1` and `elGamal2` point slices (testLongMessage.go:120-122, 152-154): they hold library points; `Splitting.EncryptLongMessage` returns the buffers instead.
- `testThreshold.go` and `testShuffle.go`: thin wrappers over kyber's secret sharing, DKG and shuffle proofs.
- `fmt.Println`, `check` and `panic`: printing and error plumbing, including the error that `Data()` may return.
- The Go `string(...)` conversion: messages are byte sequences.
- `sort.Sort`: modelled by one sort, an insertion sort through `Less` and `Swap`, because Go's algorithm is not visible here; `Sorting.SortedPermutationUnique` shows any correct sort gives the same result.
- Panics: a chunk shorter than 17 bytes makes the slicing at testLongMessage.go:275-277 panic, and an `EmbedLen` below 17 panics at line 139 (the slice `buffer[0:randomnessLength]`, when below 16) or at line 142 (the index write, when exactly 16); both are preconditions (`AllWellFormed`, `embedLen > RandomnessLength`), as is the 16-byte length of the nonce that `randomBytes` has.
- Sorting.SortableBytesList.Len: Go's `len(a)` (testLongMessage.go:213), a read of the array length that its body already states in full, so it carries no contract.
