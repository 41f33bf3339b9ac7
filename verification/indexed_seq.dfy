/** The default algorithms of the immutable indexed-sequence interface. Each is
    defined only through positional access and length, so the receiver is a
    `seq<T>` and `s[i]` stands for `get(i)`. */
module IndexedSeq {
  import opened Outcome
  import opened SeqSpec

  function Min(a: int, b: int): int
  {
    if a <= b then a else b
  }

  // ---------------------------------------------------------------- last

  /** The element at position `length - 1`, or `EmptySequence` when there is none. */
  function Last<T>(s: seq<T>): (r: Result<T>)
    ensures r.Ok? <==> |s| > 0
    ensures r.Ok? ==> r.value == s[|s| - 1]
    ensures r.Err? ==> r.error == EmptySequence
  {
    if |s| == 0 then Err(EmptySequence) else Ok(s[|s| - 1])
  }

  /** Appending an element makes it the last one. */
  lemma LastOfAppend<T>(s: seq<T>, x: T)
    ensures Last(s + [x]) == Ok(x)
  {
  }

  // ------------------------------------------------------- lastIndexWhere

  /** Where the backward search begins: the bound `end`, clamped to the last index.
      It is negative when `end` is negative or the sequence is empty. */
  function SearchStart<T>(s: seq<T>, end: int): int
  {
    Min(end, |s| - 1)
  }

  /** Scans backward from `SearchStart(s, end)` and stops at the first position
      whose element satisfies `p`. When no position is left the scan ends at -1,
      except that a negative start is returned unchanged: `end == -5` yields -5. */
  method LastIndexWhere<T>(s: seq<T>, p: T -> bool, end: int) returns (r: int)
    ensures r <= SearchStart(s, end)
    ensures SearchStart(s, end) < 0 ==> r == SearchStart(s, end)
    ensures SearchStart(s, end) >= 0 ==> -1 <= r
    ensures r >= 0 ==> p(s[r])
    ensures forall k :: 0 <= k && r < k <= SearchStart(s, end) ==> !p(s[k])
    ensures SearchStart(s, end) >= 0 ==> r == LastMatch(s[..SearchStart(s, end) + 1], p)
  {
    var start := SearchStart(s, end);
    var i := start;
    while i >= 0 && !p(s[i])
      invariant i <= start
      invariant start >= 0 ==> -1 <= i
      invariant start < 0 ==> i == start
      invariant forall k :: 0 <= k && i < k <= start ==> !p(s[k])
      decreases i
    {
      i := i - 1;
    }
    if start >= 0 {
      LastMatchUnique(s[..start + 1], p, i);
    }
    r := i;
  }

  // ------------------------------------------------------ reverseIterator

  /** The anonymous reverse iterator: the sequence it walks and its cursor `i`,
      which starts at `length` and counts down to 0. */
  datatype RevIter<T> = RevIter(elems: seq<T>, cursor: int)
  {
    /** The cursor never leaves `[0, length]`. */
    predicate Valid()
    {
      0 <= cursor <= |elems|
    }

    predicate HasNext()
    {
      cursor > 0
    }
  }

  /** A fresh iterator, as each call of `reverseIterator` creates. */
  function ReverseIterator<T>(s: seq<T>): (it: RevIter<T>)
    ensures it.elems == s && it.cursor == |s|
    ensures it.Valid()
    ensures it.HasNext() <==> |s| > 0
  {
    RevIter(s, |s|)
  }

  /** `next`: decrements the cursor and returns the element at its new value; on
      a cursor of 0 it fails with `IteratorExhausted`. */
  function Next<T>(it: RevIter<T>): (r: Result<(T, RevIter<T>)>)
    requires it.Valid()
    ensures r.Ok? <==> it.HasNext()
    ensures r.Ok? ==> r.value.1.Valid() && r.value.1.elems == it.elems
    ensures r.Ok? ==> r.value.1.cursor == it.cursor - 1
    ensures r.Ok? ==> r.value.0 == it.elems[r.value.1.cursor]
    ensures r.Err? ==> r.error == IteratorExhausted
  {
    if it.cursor > 0 then
      var i := it.cursor - 1;
      Ok((it.elems[i], RevIter(it.elems, i)))
    else
      Err(IteratorExhausted)
  }

  /** Everything `it` still yields, pulled with `next` while `hasNext` holds. */
  function Drain<T>(it: RevIter<T>): (out: seq<T>)
    requires it.Valid()
    ensures |out| == it.cursor
    ensures forall k :: 0 <= k < |out| ==> out[k] == it.elems[it.cursor - 1 - k]
    decreases it.cursor
  {
    match Next(it)
    case Err(_) => []
    case Ok((x, rest)) => [x] + Drain(rest)
  }

  /** A fresh reverse iterator yields exactly the reversed sequence. */
  lemma DrainReverseIterator<T>(s: seq<T>)
    ensures Drain(ReverseIterator(s)) == Reverse(s)
  {
  }

  /** The first element a fresh reverse iterator yields is `last`, and both fail
      on the empty sequence. */
  lemma FirstReversedIsLast<T>(s: seq<T>)
    ensures Next(ReverseIterator(s)).Ok? <==> Last(s).Ok?
    ensures Last(s).Ok? ==> Next(ReverseIterator(s)).value.0 == Last(s).value
  {
  }

  // ----------------------------------------------------------- startsWith

  /** The iterator of a `that` without positional access: it hands out the
      elements of `that` in order. */
  datatype ForwardIter<T> = ForwardIter(elems: seq<T>, pos: nat)
  {
    predicate Valid()
    {
      pos <= |elems|
    }

    predicate HasNext()
    {
      pos < |elems|
    }

    function Next(): (T, ForwardIter<T>)
      requires HasNext()
    {
      (elems[pos], ForwardIter(elems, pos + 1))
    }
  }

  /** The double-indexed loop, one call per iteration: `i` walks the receiver
      from the offset, `j` walks `that` from 0. */
  function IndexedWalk<T(==)>(s: seq<T>, that: seq<T>, i: nat, j: nat): bool
    requires j <= |that|
    decreases |that| - j
  {
    if i < |s| && j < |that| && s[i] == that[j] then IndexedWalk(s, that, i + 1, j + 1)
    else j == |that|
  }

  /** `startsWith` when `that` has positional access. */
  function StartsWithIndexed<T(==)>(s: seq<T>, that: seq<T>, offset: int): (r: bool)
    ensures offset < 0 ==> !r
  {
    if offset < 0 then false else IndexedWalk(s, that, offset, 0)
  }

  /** The loop that indexes the receiver and pulls `that` from its iterator, one
      call per iteration. */
  function IteratedWalk<T(==)>(s: seq<T>, i: nat, it: ForwardIter<T>): bool
    requires it.Valid()
    decreases |it.elems| - it.pos
  {
    if i < |s| && it.HasNext() then
      var (x, rest) := it.Next();
      if s[i] != x then false else IteratedWalk(s, i + 1, rest)
    else
      !it.HasNext()
  }

  /** `startsWith` when `that` is only iterable. */
  function StartsWithIterated<T(==)>(s: seq<T>, that: seq<T>, offset: int): (r: bool)
    ensures offset < 0 ==> !r
  {
    if offset < 0 then false else IteratedWalk(s, offset, ForwardIter(that, 0))
  }

  /** What both loops keep after `j` steps from `offset`: the first `j` elements
      of `that` matched, and `j > 0` only if they fit in the receiver. */
  ghost predicate MatchedSoFar<T>(s: seq<T>, that: seq<T>, offset: nat, j: nat)
  {
    && j <= |that|
    && (j == 0 || offset + j <= |s|)
    && forall k :: 0 <= k < j ==> s[offset + k] == that[k]
  }

  lemma {:induction false} IndexedWalkMeaning<T>(s: seq<T>, that: seq<T>, offset: nat, j: nat)
    requires MatchedSoFar(s, that, offset, j)
    ensures IndexedWalk(s, that, offset + j, j) == StartsAt(s, that, offset)
    decreases |that| - j
  {
    var i := offset + j;
    if i < |s| && j < |that| && s[i] == that[j] {
      IndexedWalkMeaning(s, that, offset, j + 1);
    } else if j == |that| {
      if that != [] {
        assert s[offset..offset + |that|] == that;
      }
    } else if offset + |that| <= |s| {
      assert s[offset..offset + |that|][j] != that[j];
    }
  }

  lemma {:induction false} IteratedWalkMeaning<T>(s: seq<T>, that: seq<T>, offset: nat, j: nat)
    requires MatchedSoFar(s, that, offset, j)
    ensures IteratedWalk(s, offset + j, ForwardIter(that, j)) == StartsAt(s, that, offset)
    decreases |that| - j
  {
    var i := offset + j;
    if i < |s| && j < |that| && s[i] == that[j] {
      IteratedWalkMeaning(s, that, offset, j + 1);
    } else if j == |that| {
      if that != [] {
        assert s[offset..offset + |that|] == that;
      }
    } else if offset + |that| <= |s| {
      assert s[offset..offset + |that|][j] != that[j];
    }
  }

  /** The indexed path is true iff `that` occurs in the receiver at `offset`. */
  lemma StartsWithIndexedMeaning<T>(s: seq<T>, that: seq<T>, offset: int)
    ensures StartsWithIndexed(s, that, offset) == StartsAt(s, that, offset)
  {
    if offset >= 0 {
      IndexedWalkMeaning(s, that, offset, 0);
    }
  }

  /** The iterator path is true iff `that` occurs in the receiver at `offset`. */
  lemma StartsWithIteratedMeaning<T>(s: seq<T>, that: seq<T>, offset: int)
    ensures StartsWithIterated(s, that, offset) == StartsAt(s, that, offset)
  {
    if offset >= 0 {
      IteratedWalkMeaning(s, that, offset, 0);
    }
  }

  /** The two paths of `startsWith` agree on every input. */
  lemma StartsWithPathsAgree<T>(s: seq<T>, that: seq<T>, offset: int)
    ensures StartsWithIndexed(s, that, offset) == StartsWithIterated(s, that, offset)
  {
    StartsWithIndexedMeaning(s, that, offset);
    StartsWithIteratedMeaning(s, that, offset);
  }

  /** An empty `that` is found at every non-negative offset, even past the end. */
  lemma StartsWithEmpty<T>(s: seq<T>, offset: int)
    requires offset >= 0
    ensures StartsWithIndexed(s, [], offset) && StartsWithIterated(s, [], offset)
  {
  }

  /** Concrete cases: `[2, 3]` sits at offset 1 of `[1, 2, 3, 4]`, not at offset 2,
      and no negative offset matches. */
  lemma StartsWithExamples()
    ensures StartsWithIndexed([1, 2, 3, 4], [2, 3], 1)
    ensures !StartsWithIndexed([1, 2, 3, 4], [2, 3], 2)
    ensures !StartsWithIterated([1, 2, 3, 4], [2, 3], 2)
    ensures !StartsWithIterated([1, 2, 3, 4], [2, 3], -1)
  {
  }

  /** Whether `that` offers positional access decides which path runs. */
  datatype Iterable<T> = Indexed(elems: seq<T>) | Sequential(elems: seq<T>)

  function StartsWith<T(==)>(s: seq<T>, that: Iterable<T>, offset: int): (r: bool)
    ensures r == StartsAt(s, that.elems, offset)
  {
    match that
    case Indexed(elems) =>
      StartsWithIndexedMeaning(s, elems, offset);
      StartsWithIndexed(s, elems, offset)
    case Sequential(elems) =>
      StartsWithIteratedMeaning(s, elems, offset);
      StartsWithIterated(s, elems, offset)
  }

  // ------------------------------------------------------------- endsWith

  /** Comparing backward from both ends is the indexed `startsWith` at offset 0
      on the reversed sequences; with the contract of `EndsWithIndexed` this
      relates the two algorithms. */
  lemma EndsWithIsReversedStartsWith<T>(s: seq<T>, that: seq<T>)
    ensures EndsAt(s, that) <==> StartsWithIndexed(Reverse(s), Reverse(that), 0)
  {
    EndsAtIsReversedStartsAt(s, that);
    StartsWithIndexedMeaning(Reverse(s), Reverse(that), 0);
  }

  /** `endsWith` when `that` has positional access: compares backward from the
      last index of both sides, after failing at once when `that` is longer. */
  method EndsWithIndexed<T(==)>(s: seq<T>, that: seq<T>) returns (r: bool)
    ensures |that| > |s| ==> !r
    ensures that == [] ==> r
    ensures r <==> EndsAt(s, that)
  {
    var i := |s| - 1;
    var j := |that| - 1;
    if j > i {
      return false;
    }
    while j >= 0
      invariant -1 <= j <= i < |s|
      invariant i - j == |s| - |that|
      invariant forall k :: j < k < |that| ==> s[k + |s| - |that|] == that[k]
      decreases j
    {
      if s[i] != that[j] {
        assert s[|s| - |that|..][j] != that[j];
        return false;
      }
      i := i - 1;
      j := j - 1;
    }
    assert s[|s| - |that|..] == that;
    return true;
  }
}
