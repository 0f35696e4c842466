/** The drop-oldest byte ring buffer of the firmware: a fixed-capacity FIFO
    over a caller-supplied array, tracked by `head` (next slot to write),
    `tail` (oldest byte) and `count` (number of queued bytes). */
module CircularBuffers {

  /** The newest `n` elements of `s`: what a drop-oldest queue of capacity
      `n` holds after `s` has been pushed into it, oldest first. */
  function Newest(s: seq<bv8>, n: nat): seq<bv8>
  {
    if |s| <= n then s else s[|s| - n..]
  }

  /** Pushing one more byte after the window has been cut is the same as
      cutting the window of the longer stream. */
  lemma {:induction false} NewestAppend(s: seq<bv8>, b: bv8, n: nat)
    requires 0 < n
    ensures Newest(Newest(s, n) + [b], n) == Newest(s + [b], n)
  {
    if n <= |s| {
      var w := s[|s| - n..];
      assert |w + [b]| == n + 1;
      calc {
        Newest(w + [b], n);
        (w + [b])[1..];
        { assert (w + [b])[1..] == s[|s| + 1 - n..] + [b]; }
        s[|s| + 1 - n..] + [b];
        { assert (s + [b])[|s| + 1 - n..] == s[|s| + 1 - n..] + [b]; }
        Newest(s + [b], n);
      }
    }
  }

  /** The slot `x` lands on in a ring of `n` slots, for `x < 2 * n`. */
  function Wrap(x: nat, n: nat): nat
  {
    if x < n then x else x - n
  }

  /** On the indices the buffer uses, the source's `% size` is `Wrap`. */
  lemma ModIsWrap(x: nat, n: nat)
    requires 0 < n && x < 2 * n
    ensures x % n == Wrap(x, n)
  {
    if n <= x {
      assert x == 1 * n + (x - n);
    }
  }

  /** The queue `q` sits in `cells` from slot `t` on, wrapping at slot `n`. */
  ghost predicate Laid(q: seq<bv8>, cells: seq<bv8>, t: nat, n: nat)
  {
    && |q| <= n <= |cells|
    && (0 < n ==> t < n)
    && forall i :: 0 <= i < |q| ==> q[i] == cells[Wrap(t + i, n)]
  }

  /** Dropping the oldest element moves the start one slot on. */
  lemma LaidDrop(q: seq<bv8>, cells: seq<bv8>, t: nat, n: nat)
    requires Laid(q, cells, t, n) && 0 < |q|
    ensures Laid(q[1..], cells, Wrap(t + 1, n), n)
  {
    forall i | 0 <= i < |q| - 1
      ensures q[1..][i] == cells[Wrap(Wrap(t + 1, n) + i, n)]
    {
      assert Wrap(Wrap(t + 1, n) + i, n) == Wrap(t + (i + 1), n);
    }
  }

  /** Writing the slot just past the newest element appends it. */
  lemma LaidWrite(q: seq<bv8>, cells: seq<bv8>, t: nat, n: nat, b: bv8)
    requires Laid(q, cells, t, n) && |q| < n
    ensures Laid(q + [b], cells[Wrap(t + |q|, n) := b], t, n)
  {
    var cells' := cells[Wrap(t + |q|, n) := b];
    forall i | 0 <= i < |q| + 1
      ensures (q + [b])[i] == cells'[Wrap(t + i, n)]
    {
      if i < |q| {
        assert Wrap(t + i, n) != Wrap(t + |q|, n);
      }
    }
  }

  class CircularBuffer {
    /** The backing array handed over at initialisation. */
    const buffer: array<bv8>
    /** The capacity; only the first `size` slots of `buffer` are used. */
    const size: nat
    var head: nat
    var tail: nat
    var count: nat
    /** The queued bytes, oldest first. */
    ghost var Contents: seq<bv8>

    ghost predicate Valid()
      reads this, buffer
    {
      && size <= buffer.Length
      && count <= size
      && |Contents| == count
      && (size == 0 ==> head == 0 && tail == 0)
      && (0 < size ==> head < size && tail < size && head == Wrap(tail + count, size))
      && Laid(Contents, buffer[..], tail, size)
    }

    /** The index relation of the source: the write slot is `count` slots past the oldest. */
    lemma HeadFollowsTail()
      requires Valid() && 0 < size
      ensures head == (tail + count) % size
    {
      ModIsWrap(tail + count, size);
    }

    /** The index step every operation takes: one slot on, modulo the capacity. */
    method Advance(i: nat) returns (next: nat)
      requires 0 < size && i < size
      ensures next < size && next == Wrap(i + 1, size)
    {
      ModIsWrap(i + 1, size);
      next := (i + 1) % size;
    }

    /** `circular_buffer_init`: an empty queue of capacity `capacity` over `storage`. */
    constructor (storage: array<bv8>, capacity: nat)
      requires capacity <= storage.Length
      ensures Valid()
      ensures buffer == storage && size == capacity
      ensures head == 0 && tail == 0 && count == 0 && Contents == []
    {
      buffer := storage;
      size := capacity;
      head, tail, count := 0, 0, 0;
      Contents := [];
    }

    /** `circular_buffer_push`: a full queue first drops its oldest byte, so
        the queue keeps the newest `size` bytes; the call always reports success. */
    method Push(data: bv8) returns (ok: bool)
      requires Valid() && 0 < size
      modifies this, buffer
      ensures Valid()
      ensures ok
      ensures Contents == Newest(old(Contents) + [data], size)
      ensures buffer[..] == old(buffer[..])[old(head) := data]
    {
      if count >= size {
        // drop the oldest byte
        LaidDrop(Contents, buffer[..], tail, size);
        tail := Advance(tail);
        count := count - 1;
        Contents := Contents[1..];
      }
      LaidWrite(Contents, buffer[..], tail, size, data);
      ghost var cells := buffer[..][head := data];
      buffer[head] := data;
      assert buffer[..] == cells;
      head := Advance(head);
      count := count + 1;
      Contents := Contents + [data];
      NewestOfShortQueue(old(Contents), data, size);
      ok := true;
    }

    /** `circular_buffer_pop`: fails exactly on an empty queue and then changes
        nothing; otherwise removes and returns the oldest byte. */
    method Pop() returns (ok: bool, data: bv8)
      requires Valid()
      modifies this
      ensures Valid()
      ensures ok <==> old(count) != 0
      ensures !ok ==> head == old(head) && tail == old(tail) && count == old(count) && Contents == old(Contents)
      ensures ok ==> data == old(Contents)[0] && Contents == old(Contents)[1..]
    {
      if count == 0 {
        return false, 0;
      }
      data := buffer[tail];
      LaidDrop(Contents, buffer[..], tail, size);
      tail := Advance(tail);
      count := count - 1;
      Contents := Contents[1..];
      ok := true;
    }

    /** `circular_buffer_available`: the number of queued bytes. */
    method Available() returns (n: nat)
      requires Valid()
      ensures n == |Contents|
    {
      n := count;
    }

    /** `circular_buffer_free`: the room left; with `Available` it adds up to the capacity. */
    method Free() returns (n: nat)
      requires Valid()
      ensures n + |Contents| == size
    {
      n := size - count;
    }

    /** `circular_buffer_clear`: empties the queue; the backing array is not written. */
    method Clear()
      requires Valid()
      modifies this
      ensures Valid()
      ensures head == 0 && tail == 0 && count == 0 && Contents == []
    {
      head, tail, count := 0, 0, 0;
      Contents := [];
    }
  }

  /** The two shapes of a push, in terms of the newest-window view. */
  lemma NewestOfShortQueue(q: seq<bv8>, b: bv8, n: nat)
    requires 0 < n && |q| <= n
    ensures |q| < n ==> Newest(q + [b], n) == q + [b]
    ensures |q| == n ==> Newest(q + [b], n) == q[1..] + [b]
  {
    if |q| == n {
      assert (q + [b])[1..] == q[1..] + [b];
    }
  }

  /** One step of a batch push: the window after `i + 1` bytes of `bs`. */
  lemma NewestPushStep(start: seq<bv8>, bs: seq<bv8>, i: nat, n: nat)
    requires 0 < n && i < |bs|
    ensures Newest(Newest(start + bs[..i], n) + [bs[i]], n) == Newest(start + bs[..i + 1], n)
  {
    NewestAppend(start + bs[..i], bs[i], n);
    assert start + bs[..i + 1] == start + bs[..i] + [bs[i]];
  }

  /** Push every byte of `bs` in order, as the foreground loop does with a
      batch read from the transport. */
  method PushAll(cb: CircularBuffer, bs: seq<bv8>)
    requires cb.Valid() && 0 < cb.size
    modifies cb, cb.buffer
    ensures cb.Valid()
    ensures cb.Contents == Newest(old(cb.Contents) + bs, cb.size)
  {
    var i := 0;
    ghost var start := cb.Contents;
    assert Newest(start, cb.size) == start;
    while i < |bs|
      invariant 0 <= i <= |bs|
      invariant cb.Valid()
      invariant cb.Contents == Newest(start + bs[..i], cb.size)
      modifies cb, cb.buffer
    {
      var _ := cb.Push(bs[i]);
      NewestPushStep(start, bs, i, cb.size);
      i := i + 1;
    }
    assert bs[..i] == bs;
  }

  /** Pop until the buffer reports empty, as the foreground loop drains a
      ring toward the transport: the bytes come out oldest first. */
  method PopAll(cb: CircularBuffer) returns (out: seq<bv8>)
    requires cb.Valid()
    modifies cb
    ensures cb.Valid() && cb.Contents == []
    ensures out == old(cb.Contents)
  {
    out := [];
    var ok := true;
    while ok
      invariant cb.Valid()
      invariant out + cb.Contents == old(cb.Contents)
      invariant !ok ==> cb.Contents == []
      decreases |cb.Contents| + (if ok then 1 else 0)
    {
      var d;
      ok, d := cb.Pop();
      if ok {
        out := out + [d];
      }
    }
  }

  /** Push a stream of bytes into a fresh buffer of capacity `capacity`, then
      drain it: the bytes come out oldest first, and only the newest
      `capacity` of them survive. */
  method FifoRoundTrip(capacity: nat, bs: seq<bv8>) returns (out: seq<bv8>)
    requires 0 < capacity
    ensures out == Newest(bs, capacity)
    ensures |bs| <= capacity ==> out == bs
  {
    var storage := new bv8[capacity];
    var cb := new CircularBuffer(storage, capacity);
    PushAll(cb, bs);
    assert [] + bs == bs;
    out := PopAll(cb);
  }
}
