# IndexedSeq default algorithms in Dafny

This project models the five default algorithms of Javaslang's immutable
indexed-sequence interface (`javaslang.collection.IndexedSeq`): `last`,
`lastIndexWhere`, `reverseIterator`, `startsWith` and `endsWith`. They use
only `get(i)` and `length()` of the receiver, and `last` also uses
`isEmpty()`. So the receiver is a Dafny `seq<T>`, `get(i)` is `s[i]` and
`length()` is `|s|`. The model assumes that `isEmpty()` holds exactly when
`length() == 0`, so `isEmpty()` becomes `|s| == 0`. Immutability is built in: every operation is a
pure function or a method over values, so no call can change its receiver.

Files:

- `outcome.dfy` (module `Outcome`): the `Result` type and the two failure
  kinds, `EmptySequence` and `IteratorExhausted`. In Java both are a
  `NoSuchElementException`.
- `seq_spec.dfy` (module `SeqSpec`): reference definitions written
  independently of the loops. They are `Reverse`, `StartsAt` (occurrence at an
  offset), `EndsAt` (suffix) and `LastMatch` (greatest matching index). The
  module also proves that `LastMatch` is unique and relates suffixes to
  prefixes of reversed sequences.
- `indexed_seq.dfy` (module `IndexedSeq`): the algorithms and what is proved
  about them.
  - `lastIndexWhere` and the indexed `endsWith` are loop methods with
    invariants.
  - The reverse iterator is a state machine (`RevIter`, `Next`, `Drain`).
  - The two `startsWith` loops are written as tail-recursive functions, one
    call per loop iteration. That lets one lemma relate them.

The Java `instanceof` dispatch is modelled by a tagged datatype,
`Iterable = Indexed | Sequential`. `StartsWith` over it returns the same answer
whatever the tag.

`lastIndexWhere` follows the code. The start index is `min(end, length - 1)`.
When that start is negative, the loop never runs and the start itself is
returned, so `end == -5` gives -5 and not -1. A description of the result as
"the greatest matching index, or -1" is therefore wrong for `end < -1`. The
model states what the code does.

## Model

| member | source | states |
|---|---|---|
| IndexedSeq.Last | src/main/java/javaslang/collection/IndexedSeq.java:102-108 | Succeeds iff the sequence is non-empty, with the element at `length - 1`. On an empty sequence it fails with `EmptySequence`. |
| IndexedSeq.LastOfAppend | src/main/java/javaslang/collection/IndexedSeq.java:102-108 | `last` of `s + [x]` is `x` for every `s`. |
| IndexedSeq.LastIndexWhere | src/main/java/javaslang/collection/IndexedSeq.java:111-115 | Let `start = min(end, length-1)`. The result is at most `start`. A non-negative result satisfies `p`, and `p` fails at every index after it up to `start`. With `start >= 0` the result is at least -1 and equals the greatest matching index of `s[..start+1]` (`LastMatch`), so it is -1 when none matches. With `start < 0` the result is `start` itself. |
| IndexedSeq.ReverseIterator | src/main/java/javaslang/collection/IndexedSeq.java:172-174 | A fresh iterator walks the given sequence, and its cursor starts at `length`, which lies in `[0, length]`. It has a next element iff the sequence is non-empty. |
| IndexedSeq.Next | src/main/java/javaslang/collection/IndexedSeq.java:176-187 | `next` succeeds iff `hasNext` (cursor > 0). It decrements the cursor by one, keeps it in range and returns the element at the new cursor. At cursor 0 it fails with `IteratorExhausted`. |
| IndexedSeq.Drain | src/main/java/javaslang/collection/IndexedSeq.java:176-187 | Pulling an iterator dry yields as many elements as its cursor, and the k-th is the element at `cursor - 1 - k`. |
| IndexedSeq.DrainReverseIterator | src/main/java/javaslang/collection/IndexedSeq.java:172-189 | A fresh reverse iterator yields exactly `Reverse(s)`. |
| IndexedSeq.FirstReversedIsLast | src/main/java/javaslang/collection/IndexedSeq.java:182-184 | The first `next` of a fresh reverse iterator succeeds iff `last` does, and then returns the same element. |
| IndexedSeq.StartsWithIndexed | src/main/java/javaslang/collection/IndexedSeq.java:210-222 | A negative offset gives false. |
| IndexedSeq.StartsWithIterated | src/main/java/javaslang/collection/IndexedSeq.java:210-233 | A negative offset gives false, on the iterator path too. |
| IndexedSeq.IndexedWalkMeaning | src/main/java/javaslang/collection/IndexedSeq.java:214-222 | Suppose the first `j` elements of `that` already match from `offset`. Then the double-indexed loop returns true iff `that` occurs at `offset`. |
| IndexedSeq.IteratedWalkMeaning | src/main/java/javaslang/collection/IndexedSeq.java:224-232 | The same holds for the loop that pulls `that` from its iterator and returns false at the first mismatch. |
| IndexedSeq.StartsWithIndexedMeaning | src/main/java/javaslang/collection/IndexedSeq.java:210-222 | The indexed path returns true iff the offset is non-negative and either `that` is empty or `offset + |that| <= length` with `s[offset..offset+|that|] == that`. |
| IndexedSeq.StartsWithIteratedMeaning | src/main/java/javaslang/collection/IndexedSeq.java:223-233 | The iterator path returns true on exactly the same inputs. |
| IndexedSeq.StartsWithPathsAgree | src/main/java/javaslang/collection/IndexedSeq.java:212-233 | The indexed path and the iterator path return the same boolean for every receiver, `that` and offset. |
| IndexedSeq.StartsWithEmpty | src/main/java/javaslang/collection/IndexedSeq.java:214-232 | An empty `that` gives true on both paths for every offset >= 0, including offsets past the end of the receiver. |
| IndexedSeq.StartsWithExamples | src/main/java/javaslang/collection/IndexedSeq.java:210-233 | `[2,3]` is found at offset 1 of `[1,2,3,4]`. It is not found at offset 2 or at offset -1. |
| IndexedSeq.StartsWith | src/main/java/javaslang/collection/IndexedSeq.java:210-234 | Whichever branch the kind of `that` selects, the result is `StartsAt(s, that, offset)`. |
| IndexedSeq.EndsWithIndexed | src/main/java/javaslang/collection/IndexedSeq.java:238-251 | The result is false when `that` is longer than the receiver and true when `that` is empty. Otherwise it is true iff `that == s[length-|that|..]`, with every compared index in range. |
| IndexedSeq.EndsWithIsReversedStartsWith | src/main/java/javaslang/collection/IndexedSeq.java:238-251 | `that` is a suffix of `s`, which is what `EndsWithIndexed` returns, iff the indexed `startsWith` path finds `Reverse(that)` at offset 0 of `Reverse(s)`. |
| SeqSpec.EndsAtIsReversedStartsAt | src/main/java/javaslang/collection/IndexedSeq.java:238-251 | Comparing backward from both ends is comparing forward on the reversed sequences: `that` is a suffix of `s` iff `Reverse(that)` occurs at offset 0 of `Reverse(s)`. |

## Left out

- The roughly sixty abstract overrides that only narrow return types to `IndexedSeq` (`append`, `map`, `zip`, `groupBy`, ...). They have no bodies and state a Java typing fact, not behaviour.
- The non-indexed branch of `endsWith`. It delegates to the default `endsWith` of the general `Seq` interface, which is not part of this model.
- `Objects.equals` null handling: elements are compared with Dafny's `==` on an equality type.
- 32-bit `int` arithmetic: unbounded `int` changes nothing. Two arguments come from the caller. `end` is used only through `min`, and the backward scan after it stays within `[-1, length - 1]`. `offset` becomes the receiver index `i` of `startsWith` and may be as large as `Integer.MAX_VALUE`. Since `i++` runs only while `i < length`, incrementing never overflows. `i` is above `length` only when `offset` already is, and then no comparison happens. In `endsWith`, `that.length() - 1` cannot overflow, and once the `j > i` test has passed, its indices stay within `[-1, length - 1]`.
- The exception machinery of `Iterator.empty().next()` and of `last`: modelled as `Err` results.
- Restartability of `reverseIterator` needs no lemma: `ReverseIterator` is a pure function, so two calls give equal iterators.
- The iterator of a non-indexed `that` is modelled as `ForwardIter`, a cursor over a finite `seq<T>` that yields the elements in order. How a real iterable produces its elements is outside this model.
- IndexedSeq.StartsWithIterated: `that` is always finite in the model. The source also accepts an infinite iterable, such as an infinite lazy stream. For that input the loop still ends after at most `max(0, length - offset)` comparisons, because `i < length` bounds it. The source then returns false, either at a mismatch or because `hasNext()` is still true at the end. The model cannot express this input and makes no claim about it.
