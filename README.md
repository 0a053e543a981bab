# HKDS support code: the QSC tagged queue and the Keccak parameter table

This project models two parts of the QSC library that ships with HKDS
(Hierarchical Key Derivation System).

- **The fixed-depth tagged FIFO queue** (`HKDS/QSC/queue.c`) is modelled in
  imperative Dafny. `Queue.QueueState` is a class with the same state as
  `qsc_queue_state`:
  - `queue`, an array of `depth` separately allocated slot buffers of
    `width` bytes each;
  - `tags`, an array of 64-bit tags;
  - the counters `count` and `position`, plus `depth` and `width`.

  A ghost sequence `Contents` holds the live items, oldest first. `Valid()`
  is the class invariant:
  - `count == position <= depth`;
  - the slot buffers are distinct and each `width` bytes long;
  - live slot `i` holds `Contents[i]` byte for byte;
  - every slot from `position` up is all zero bytes.

  Each queue operation is a method with these properties:
  - it keeps `Valid()`;
  - its postcondition states the new `Contents`, tags, counters and output
    buffer in terms of the old ones;
  - every loop of the queue operations, and every push, pop and comparison
    loop of the self test, is a `while` loop with its invariants. The self
    test's nested loop that fills `exp` (queue.c lines 169-175) computes a
    fixed table, so it is the function `Queue.Expected` instead.

- **The Keccak parameter table** (`HKDS/QSC/sha3.h`) is modelled as pure
  constants, functions and lemmas. It covers:
  - the rates and the `qsc_keccak_rate` enum;
  - the state sizes (25 lanes, 200 bytes);
  - the documented SHA3 output size `(200 - rate) / 2`;
  - the round-count bounds and the key sizes;
  - the domain identifiers and the layouts of `qsc_keccak_state` and
    `qsc_kpa_state`.

  Each domain identifier is shown to be its construction's suffix followed
  by the first padding bit, read least significant bit first. This follows
  sections 6.1 and 6.2 of FIPS 202 for SHA3 and SHAKE, and sections 3.3 and
  4.3 of NIST SP 800-185 for cSHAKE and KMAC. The byte encoding is proved
  invertible, so distinct suffixes give distinct identifiers.

Files:
- `memutils.dfy` has the byte copy and fill the queue uses in place of
  `qsc_memutils_copy` and `qsc_memutils_clear`.
- `queue.dfy` has the queue class, the loop helpers over the slot buffers,
  and the self test.
- `keccak.dfy` has the parameter table.

Where the code and the library's own documentation or evident intent
disagree, the model follows the code:
- `qsc_queue_pop` returns the newest item's tag. A FIFO queue of tagged items
  evidently means each item to come back with its own tag, and the self test
  pushes item i with tag i. See "## Findings".
- The doc comments of `qsc_keccak_permute`, `qsc_keccak_permute_p1600c`,
  `qsc_keccak_squeezeblocks` and `qsc_keccak_update` (sha3.h lines 351, 360,
  381 and 402) give 24 as the maximum round count. The model uses the
  `#define` value, `QSC_KECCAK_PERMUTATION_MAX_ROUNDS = 48` (sha3.h line 133).

## Model

| member | source | states |
|---|---|---|
| Queue.QueueState.constructor | HKDS/QSC/queue.c:54-81 | initialize allocates `depth` distinct zeroed slots of `width` bytes, clears the tags and starts both counters at 0; the result is a valid, empty queue |
| Queue.QueueState.Items | HKDS/QSC/queue.c:83-88 | the result is the number of live items |
| Queue.QueueState.IsFull | HKDS/QSC/queue.c:90-95 | true exactly when there are `depth` live items |
| Queue.QueueState.IsEmpty | HKDS/QSC/queue.c:97-102 | true exactly when no item is live |
| Queue.QueueState.Push | HKDS/QSC/queue.c:139-152 | when not full and `inlen <= width`: the items gain `input[..inlen]` zero-padded to the slot width, the tag is written at the old position, and both counters grow by one; otherwise nothing changes; the invariant (counters equal, zero tail) is kept either way |
| Queue.QueueState.Pop | HKDS/QSC/queue.c:104-137 | as written: when not empty and `outlen <= width`, output gets the first `outlen` bytes of the oldest item, the oldest item leaves, tags `1..position` move down with a 0 after them, both counters drop by one, and the result is the tag at `position-1` before the shift (the newest item's tag); otherwise it returns 0 and nothing changes |
| Queue.QueueState.PopFifo | HKDS/QSC/queue.c:119 | the corrected pop: the same removal and shift as Pop, returning the tag pushed with the removed item |
| Queue.QueueState.ShiftDown | HKDS/QSC/queue.c:118-133 | the oldest item leaves, every later item and tag moves down one place, the vacated tag becomes 0, the counters drop by one, and the zero tail is kept |
| Queue.ShiftSlots | HKDS/QSC/queue.c:118-131 | after wiping slot 0 and the copy-down loop: slot j holds old slot j+1's bytes for j < n-1, slot n-1 is zero, slots from n up are untouched, and the tags are shifted down with a 0 at n-1 |
| Queue.QueueState.TakeOldest | HKDS/QSC/queue.c:117 | output gets the oldest item's first `outlen` bytes; the rest of output is unchanged |
| Queue.QueueState.Flush | HKDS/QSC/queue.c:30-52 | output becomes the concatenation of the live items, followed by its old tail; the queue is left valid and empty with every tag 0 |
| Queue.FlushSlots | HKDS/QSC/queue.c:39-46 | the copy-and-wipe loop: output's first `n*w` bytes are the n slots laid end to end, and those slots are zeroed |
| Queue.FlattenBlock | HKDS/QSC/queue.c:43 | item i of equal-width items is the i-th `w`-byte block of their concatenation, at offset `i*w` |
| Queue.FlattenLength | HKDS/QSC/queue.c:43 | n items of width w concatenate to `n*w` bytes |
| Queue.QueueState.Destroy | HKDS/QSC/queue.c:3-28 | every old slot is zero, the slots are released, all tags are 0, and count, depth, position and width are 0 |
| Queue.WipeSlots | HKDS/QSC/queue.c:11-18 | every slot buffer is all zero bytes |
| MemUtils.Copy | HKDS/QSC/queue.c:147 | the byte copy: the destination range holds the source and every other byte is unchanged |
| MemUtils.Fill | HKDS/QSC/queue.c:71 | the clear: every element holds the fill value |
| Queue.PushExpected | HKDS/QSC/queue.c:177-180 | 64 pushes of 16-byte items onto an empty 64-deep queue leave exactly those items, in order, with tag i at index i |
| Queue.PopExpected | HKDS/QSC/queue.c:187-190 | the drain loop as written: 64 pops return the pushed items in push order, every one of them with tag 63, and leave the queue empty |
| Queue.PopNext | HKDS/QSC/queue.c:189 | one `qsc_queue_pop` of the drain loop returns item i with tag 63 and leaves items i+1 .. 63, whose tags still count up from i+1 |
| Queue.PopNextFifo | HKDS/QSC/queue.c:189 | the same pop with the corrected tag: item i comes back with tag i |
| Queue.DrainFifo | HKDS/QSC/queue.c:187-190 | the drain loop with the corrected pop: the 64 items come back in push order, each with its own tag, and the queue ends empty |
| Queue.FifoRoundTrip | HKDS/QSC/queue.c:166-190 | a new 64-deep queue filled with items 0 .. 63 tagged 0 .. 63 and drained with the corrected pop returns every item with its own tag, in push order |
| Queue.FillAndDrain | HKDS/QSC/queue.c:166-209 | fill, full check, drain, empty and zero-items checks and the output comparison all pass |
| Queue.FillAndFlush | HKDS/QSC/queue.c:211-230 | refill, 64-items check, flush and the block-by-block comparison of the flushed buffer all pass |
| Queue.SelfTest | HKDS/QSC/queue.c:154-235 | qsc_queue_self_test returns true |
| Queue.PopTagOfNewest | HKDS/QSC/queue.c:119 | counterexample for the as-written pop: after pushing [7] with tag 1 and [9] with tag 2, pop gives back item 7 with tag 2 |
| Queue.PopFifoTagOfOldest | HKDS/QSC/queue.c:119 | the same pushes followed by the corrected pop give back item 7 with tag 1 |
| Keccak.RateBytes | HKDS/QSC/sha3.h:248-253 | the enum's rates 168/136/72 are whole lanes below the 200-byte state, and rate plus a capacity of twice the security level fills the 1600 bits |
| Keccak.Sha3OutputSize | HKDS/QSC/sha3.h:451 | `(200 - rate) / 2` equals QSC_SHA3_128/256/512_HASH_SIZE (16, 32, 64), the security level in bytes, and rate plus twice it is the 200-byte state |
| Keccak.KmacKeySize | HKDS/QSC/sha3.h:193-199 | KMAC key sizes exist for 256 and 512 only, and each is the security level in bytes |
| Keccak.ShakeKeySize | HKDS/QSC/sha3.h:223-229 | SHAKE key sizes exist for 256 and 512 only, and each is the security level in bytes |
| Keccak.KpaKeySize | HKDS/QSC/sha3.h:747-759 | the KPA key sizes 16/32/64 are the security level in bytes |
| Keccak.RoundBounds | HKDS/QSC/sha3.h:127-139 | min 12 <= default 24 <= max 48, and the KPA round count of 12 lies in that range |
| Keccak.SuffixByte | HKDS/QSC/sha3.h:109-151 | a suffix followed by the padding bit, read least significant bit first, is a byte whose highest set bit sits just above the suffix |
| Keccak.Suffix | HKDS/QSC/sha3.h:109-151 | the suffix a nonzero domain byte encodes has the length of the bits below its top bit |
| Keccak.SuffixOfSuffixByte | HKDS/QSC/sha3.h:109-151 | decoding the byte of a suffix gives back the suffix |
| Keccak.SuffixByteOfSuffix | HKDS/QSC/sha3.h:109-151 | encoding the suffix of a nonzero byte gives back the byte |
| Keccak.SuffixByteInjective | HKDS/QSC/sha3.h:109-151 | distinct suffixes give distinct domain bytes |
| Keccak.DomainIdsFollowSuffixRules | HKDS/QSC/sha3.h:109-151 | SHA3 0x06, SHAKE 0x1F, cSHAKE 0x04, KMAC 0x04 and KPA 0x41 are each the construction's suffix followed by the padding bit; for SHA3, SHAKE, cSHAKE and KMAC the suffix is the standard's, while KPA has no standard suffix and its suffix 100000 is by definition the decoding of 0x41 |
| Keccak.DomainIdsSeparate | HKDS/QSC/sha3.h:109-151 | two constructions share an identifier exactly when they share a suffix; SHA3, SHAKE, cSHAKE and KPA are pairwise distinct, and KMAC shares cSHAKE's identifier |
| Keccak.KeccakLayout | HKDS/QSC/sha3.h:237-242 | a well-sized Keccak state's buffer holds exactly its 25 lanes' bytes (200), and any rate block fits in it |
| Keccak.KpaLayout | HKDS/QSC/sha3.h:777-790 | a well-sized KPA state has 8 lane states of 25 words and a 1600-byte buffer, whose i-th 200-byte block together with lane state i forms a well-sized Keccak state |

## Left out

- Allocation and release always succeed. `qsc_memutils_aligned_alloc` and `qsc_memutils_aligned_free` are not modelled, and neither are the NULL-pointer branches (queue.c lines 9, 13, 37, 41, 63, 69). Destroy releases the slots by replacing the slot array with an empty one.
- The asserts at queue.c lines 57, 107-108 and 142-143 are preconditions: depth, width, inlen and outlen are non-zero. The buffers passed in are treated as large enough and as separate from the queue's own storage.
- Queue.QueueState.constructor: allocates `depth` tags and clears all of them. The C code clears only `QSC_QUEUE_MAX_DEPTH` bytes of a tag array sized by `QSC_QUEUE_MAX_DEPTH` (queue.c line 78), and queue.h is not part of this model. Only tags below `position` are ever read, so no result depends on the difference.
- `qsc_memutils_copy`, `qsc_memutils_clear` and `qsc_intutils_are_equal8` are a plain byte copy, a zero fill and sequence equality. memutils.c and intutils.c are not part of this model.
- The Keccak permutation, the sponge functions and the SHA3, SHAKE, cSHAKE, KMAC and KPA computations are left out. sha3.h holds only their prototypes, and their bodies are not part of this model.
- The AVX2/AVX512 x4/x8 parallel functions and KPA's vector state fields are left out. They are behind conditional compilation, and no body is present.
- `QSC_KECCAK_STATE_BYTE_SIZE` is defined twice with the same value (sha3.h lines 157 and 187). A Dafny constant is declared once, so there is a single `StateByteSize`.
- The HKDS key hierarchy and protocol, ECDSA, sockets, the thread pool and the timer are left out. They are outside the modelled core.

## Findings

| source | as written | input that shows it | evidently intended | confidence | as-written member | corrected member |
|---|---|---|---|---|---|---|
| HKDS/QSC/queue.c:119 | `qsc_queue_pop` returns `tags[position - 1]`, read before the shift. That is the tag of the newest item, not of the item removed. | Push [7] with tag 1, then [9] with tag 2, then pop once: the output is item 7 but the tag is 2 (proved). In the self test's drain every pop returns tag 63 (proved). | Return `tags[0]`, the tag pushed with the removed oldest item, so items and tags come out in FIFO order together | high, not executed | Queue.QueueState.Pop, Queue.PopTagOfNewest, Queue.PopExpected | Queue.QueueState.PopFifo, Queue.PopFifoTagOfOldest, Queue.FifoRoundTrip |
