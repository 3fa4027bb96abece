/** The lock-free single-producer/single-consumer ring buffer `fast_queue<T, N>`.
    It owns N + 1 slots and two indices; one slot always stays free so that
    "read == write" means empty. Indices wrap by comparison with N + 1. */
module FastQueue {

  /** `size_t` on the 8-bit AVR target is 16 bits wide; unsigned arithmetic wraps modulo this. */
  const SIZE_T_MODULUS: nat := 0x1_0000

  /** Largest object size the AVR toolchain admits (PTRDIFF_MAX); `T elements[N + 1]` must fit. */
  const PTRDIFF_MAX: nat := 0x7FFF

  /** The index after `i` in a ring of n + 1 slots: increment, then reset to 0 on reaching n + 1. */
  function Advance(i: nat, n: nat): (j: nat)
    requires i <= n
    ensures j <= n
    ensures j == (i + 1) % (n + 1)
  {
    if i + 1 == n + 1 then 0 else i + 1
  }

  /** `size()` as written: the plain unsigned difference `write_idx - read_idx` of two size_t values. */
  function UnsignedSize(read: nat, write: nat): nat
    requires read < SIZE_T_MODULUS && write < SIZE_T_MODULUS
  {
    (write - read) % SIZE_T_MODULUS
  }

  /** Reducing a difference that lies within one modulus of zero adds the modulus at most once. */
  lemma ModOfSmallDifference(a: int, m: int)
    requires 0 < m && -m <= a < m
    ensures a % m == if a < 0 then a + m else a
  {
    var q, r := a / m, a % m;
    assert a == q * m + r && 0 <= r < m;
    assert 1 <= q ==> m <= q * m;
    assert q <= -2 ==> q * m <= -2 * m;
    assert a < 0 ==> q == -1;
    assert 0 <= a ==> q == 0;
  }

  /** The number of elements a ring of n + 1 slots holds between `read` and `write`. */
  function HeldCount(n: nat, read: nat, write: nat): (c: nat)
    requires read <= n && write <= n
    ensures c <= n
    ensures c == 0 <==> read == write
    ensures read <= write ==> c == write - read
    ensures write < read ==> c == n + 1 - (read - write)
  {
    ModOfSmallDifference(write - read, n + 1);
    (write - read) % (n + 1)
  }

  /** The unsigned `size()` equals the held count exactly when the write index has not wrapped
      below the read index; after such a wrap it is a huge value that can never equal N. */
  lemma SizeCorrectIffNotWrapped(n: nat, read: nat, write: nat)
    requires n < PTRDIFF_MAX && read <= n && write <= n
    ensures UnsignedSize(read, write) == HeldCount(n, read, write) <==> read <= write
    ensures write < read ==> UnsignedSize(read, write) > n
  {
    if write < read {
      assert UnsignedSize(read, write) == SIZE_T_MODULUS - (read - write);
    }
  }

  class Queue<T(0)> {
    /** The template capacity N. */
    const N: nat
    /** `T elements[N + 1]`. */
    const elements: array<T>
    var readIdx: nat
    var writeIdx: nat

    ghost predicate Valid()
      reads this
    {
      N < PTRDIFF_MAX && elements.Length == N + 1 && readIdx <= N && writeIdx <= N
    }

    /** The queued elements, oldest first: the slots from `readIdx` up to (not including) `writeIdx`, around the ring. */
    ghost function Contents(): seq<T>
      reads this, elements
      requires Valid()
    {
      if readIdx <= writeIdx then elements[readIdx..writeIdx]
      else elements[readIdx..] + elements[..writeIdx]
    }

    constructor (n: nat)
      requires n < PTRDIFF_MAX
      ensures Valid() && fresh(elements)
      ensures N == n && readIdx == 0 && writeIdx == 0
      ensures Contents() == []
    {
      N := n;
      elements := new T[n + 1];
      readIdx, writeIdx := 0, 0;
    }

    /** `empty()`: true exactly when nothing is queued. */
    function Empty(): (b: bool)
      reads this, elements
      requires Valid()
      ensures b <==> Contents() == []
    {
      readIdx == writeIdx
    }

    /** `size()` as written. It reports the number of queued elements only while the write index
        has not wrapped below the read index. */
    function Size(): (r: nat)
      reads this, elements
      requires Valid()
      ensures r == |Contents()| <==> readIdx <= writeIdx
      ensures writeIdx < readIdx ==> r > N
    {
      SizeCorrectIffNotWrapped(N, readIdx, writeIdx);
      UnsignedSize(readIdx, writeIdx)
    }

    /** The intended `size()`: (write_idx - read_idx) mod (N + 1), never more than N. */
    function Count(): (c: nat)
      reads this, elements
      requires Valid()
      ensures c == |Contents()| && c <= N
    {
      HeldCount(N, readIdx, writeIdx)
    }

    /** `max_size()`: the capacity, which bounds the number of queued elements. */
    function MaxSize(): (m: nat)
      reads this, elements
      requires Valid()
      ensures m == N && |Contents()| <= m
    {
      assert |Contents()| == Count();
      N
    }

    /** `push` with the intended fullness test (`Count() == N`). It refuses exactly when N elements
        are queued; otherwise it appends, touching only `writeIdx` and the slot it writes. */
    method Push(x: T) returns (ok: bool)
      requires Valid()
      modifies this`writeIdx, elements
      ensures Valid() && readIdx == old(readIdx)
      ensures ok <==> old(|Contents()|) < N
      ensures ok ==> Contents() == old(Contents()) + [x]
      ensures ok ==> writeIdx == Advance(old(writeIdx), N) && elements[..] == old(elements[..])[old(writeIdx) := x]
      ensures !ok ==> writeIdx == old(writeIdx) && elements[..] == old(elements[..])
    {
      if Count() == N {
        return false;
      }
      WriteSlot(x);
      ok := true;
    }

    /** `push` exactly as written: the fullness test uses the unsigned `size()`. It agrees with
        `Push` until the write index has wrapped below the read index; then a push onto a full
        queue is accepted, the write index catches up with the read index, and the N queued
        elements and the new one are all lost at once. */
    method PushAsWritten(x: T) returns (ok: bool)
      requires Valid()
      modifies this`writeIdx, elements
      ensures Valid() && readIdx == old(readIdx)
      ensures ok <==> old(Size()) != N
      ensures ok ==> writeIdx == Advance(old(writeIdx), N) && elements[..] == old(elements[..])[old(writeIdx) := x]
      ensures !ok ==> writeIdx == old(writeIdx) && elements[..] == old(elements[..])
      ensures old(|Contents()|) < N ==> ok && Contents() == old(Contents()) + [x]
      ensures old(|Contents()| == N && readIdx <= writeIdx) ==> !ok
      ensures old(|Contents()| == N && writeIdx < readIdx) ==> ok && Contents() == []
    {
      if Size() == N {
        return false;
      }
      WriteSlot(x);
      ok := true;
    }

    /** `elements[write_idx++] = x; if (write_idx == N + 1) write_idx = 0;`, the store both pushes
        perform once they accept. When a slot is free this appends x to the queued elements. */
    method WriteSlot(x: T)
      requires Valid()
      modifies this`writeIdx, elements
      ensures Valid() && readIdx == old(readIdx)
      ensures writeIdx == Advance(old(writeIdx), N) && elements[..] == old(elements[..])[old(writeIdx) := x]
      ensures old(|Contents()|) < N ==> Contents() == old(Contents()) + [x]
    {
      ghost var before := Contents();
      ghost var oldElems := elements[..];
      var w := writeIdx;
      elements[writeIdx] := x;
      writeIdx := writeIdx + 1;
      if writeIdx == N + 1 {
        writeIdx := 0;
      }
      if |before| < N {
        if readIdx <= w {
          if w < N {
            assert Contents() == elements[readIdx..w + 1];
            assert elements[readIdx..w] == oldElems[readIdx..w];
          } else {
            assert writeIdx == 0 && 0 < readIdx;
            assert Contents() == elements[readIdx..];
            assert elements[readIdx..N] == oldElems[readIdx..N];
          }
        } else {
          assert w + 1 < readIdx;
          assert elements[readIdx..] == oldElems[readIdx..];
          assert elements[..w] == oldElems[..w];
          assert Contents() == elements[readIdx..] + elements[..w + 1];
          assert elements[..w + 1] == elements[..w] + [x];
        }
      }
    }

    /** `pop(element)`: on an empty queue it returns false and leaves the indices, the storage and
        `element` as they were; otherwise it yields the oldest element, touching only `readIdx`. */
    method Pop(element: T) returns (ok: bool, out: T)
      requires Valid()
      modifies this`readIdx
      ensures Valid() && writeIdx == old(writeIdx)
      ensures ok <==> old(Contents()) != []
      ensures ok ==> out == old(Contents())[0] && Contents() == old(Contents())[1..]
      ensures ok ==> readIdx == Advance(old(readIdx), N)
      ensures !ok ==> out == element && readIdx == old(readIdx)
    {
      if Empty() {
        return false, element;
      }
      ghost var before := Contents();
      var r := readIdx;
      out := elements[readIdx];
      readIdx := readIdx + 1;
      if readIdx == N + 1 {
        readIdx := 0;
      }
      ok := true;
      if r < writeIdx {
        assert Contents() == before[1..];
      } else if r == N {
        assert before == elements[N..] + elements[..writeIdx];
        assert Contents() == elements[..writeIdx];
      } else {
        assert before == elements[r..] + elements[..writeIdx];
        assert elements[r..] == [elements[r]] + elements[r + 1..];
      }
    }
  }

  /** From an empty queue of capacity |xs|, pushing each of xs succeeds, one more push fails, and
      popping |xs| times returns xs in order and leaves the queue empty. */
  method FillThenDrain<T(0)>(xs: seq<T>, extra: T) returns (allAccepted: bool, extraAccepted: bool, popped: seq<T>, emptyAfter: bool)
    requires |xs| < PTRDIFF_MAX
    ensures allAccepted && !extraAccepted
    ensures popped == xs && emptyAfter
  {
    var q := new Queue<T>(|xs|);
    allAccepted := PushAll(q, xs);
    extraAccepted := q.Push(extra);
    popped := PopAll(q, |xs|, extra);
    emptyAfter := q.Empty();
  }

  /** Push every element of `xs` in order onto a queue with room for all of them. */
  method PushAll<T(0)>(q: Queue<T>, xs: seq<T>) returns (allAccepted: bool)
    requires q.Valid() && |q.Contents()| + |xs| <= q.N
    modifies q`writeIdx, q.elements
    ensures q.Valid() && q.Contents() == old(q.Contents()) + xs
    ensures allAccepted
  {
    allAccepted := true;
    ghost var before := q.Contents();
    var i := 0;
    while i < |xs|
      invariant 0 <= i <= |xs|
      invariant q.Valid() && q.Contents() == before + xs[..i]
      invariant allAccepted
    {
      var ok := q.Push(xs[i]);
      allAccepted := allAccepted && ok;
      assert xs[..i + 1] == xs[..i] + [xs[i]];
      i := i + 1;
    }
    assert xs[..i] == xs;
  }

  /** Pop `n` elements from a queue that holds at least `n`, returning them in order. */
  method PopAll<T(0)>(q: Queue<T>, n: nat, default: T) returns (popped: seq<T>)
    requires q.Valid() && n <= |q.Contents()|
    modifies q`readIdx
    ensures q.Valid() && popped == old(q.Contents())[..n] && q.Contents() == old(q.Contents())[n..]
  {
    ghost var before := q.Contents();
    popped := [];
    var j := 0;
    while j < n
      invariant 0 <= j <= n
      invariant q.Valid() && q.Contents() == before[j..]
      invariant popped == before[..j]
    {
      var ok, c := q.Pop(default);
      assert c == before[j] && before[j..][1..] == before[j + 1..];
      popped := popped + [c];
      assert before[..j + 1] == before[..j] + [before[j]];
      j := j + 1;
    }
  }

  /** The failing scenario of `size()` on the bridge's own queue (`fast_queue<unsigned char, 128>`):
      fill it, pop one byte, push one (the write index wraps to 0 while the read index is 1, so the
      queue is full again), then push once more with the as-written test. The push is accepted and
      the queue, which held 128 bytes, now reads as empty. */
  method WrappedFullQueueLosesEverything() returns (heldBefore: nat, accepted: bool, heldAfter: nat)
    ensures heldBefore == 128
    ensures accepted && heldAfter == 0
  {
    var q := new Queue<bv8>(128);
    var i := 0;
    while i < 128
      invariant 0 <= i <= 128
      invariant q.Valid() && q.N == 128
      invariant q.readIdx == 0 && q.writeIdx == i
    {
      var ok := q.Push(i as bv8);
      i := i + 1;
    }
    var ok, c := q.Pop(0);
    ok := q.Push(0xAA);
    heldBefore := q.Count();
    accepted := q.PushAsWritten(0x55);
    heldAfter := q.Count();
  }
}
