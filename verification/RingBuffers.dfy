/** The audio ring buffer: a fixed array used as a bounded first-in-first-out queue of bytes. */
module RingBuffers {
  import opened Words

  // ----- the queue it stands for -----

  datatype Op = Write(src: seq<byte>) | Read(bytes: nat) | Clear

  // Bytes that have left the queue, read by a caller or thrown away by Clear.
  datatype Piece = Delivered(bytes: seq<byte>) | Discarded(bytes: seq<byte>)

  // A run's effect: the bytes accepted, the pieces that left in order, and what is still queued.
  datatype Run = Run(accepted: seq<byte>, left: seq<Piece>, queue: seq<byte>)

  function Min(a: nat, b: nat): nat {
    if a <= b then a else b
  }

  function AllBytes(left: seq<Piece>): seq<byte> {
    if left == [] then [] else AllBytes(left[..|left| - 1]) + left[|left| - 1].bytes
  }

  // What the readers received.
  function Output(left: seq<Piece>): seq<byte> {
    if left == [] then []
    else Output(left[..|left| - 1]) + if left[|left| - 1].Delivered? then left[|left| - 1].bytes else []
  }

  lemma PieceAppended(left: seq<Piece>, p: Piece)
    ensures AllBytes(left + [p]) == AllBytes(left) + p.bytes
    ensures Output(left + [p]) == Output(left) + if p.Delivered? then p.bytes else []
  {
    assert (left + [p])[..|left|] == left;
  }

  function Step(run: Run, op: Op, capacity: nat): Run {
    match op
    case Write(src) =>
      if |run.queue| + |src| <= capacity then run.(accepted := run.accepted + src, queue := run.queue + src) else run
    case Read(bytes) =>
      var n := Min(bytes, |run.queue|);
      run.(left := run.left + [Delivered(run.queue[..n])], queue := run.queue[n..])
    case Clear =>
      run.(left := run.left + [Discarded(run.queue)], queue := [])
  }

  function Steps(ops: seq<Op>, capacity: nat): Run {
    if ops == [] then Run([], [], []) else Step(Steps(ops[..|ops| - 1], capacity), ops[|ops| - 1], capacity)
  }

  /** Over any run, every accepted byte has left in order, read or thrown away, or is still queued. */
  lemma {:induction false} NothingLostOrReordered(ops: seq<Op>, capacity: nat)
    ensures var r := Steps(ops, capacity); r.accepted == AllBytes(r.left) + r.queue && |r.queue| <= capacity
  {
    if ops != [] {
      NothingLostOrReordered(ops[..|ops| - 1], capacity);
      StepKeepsBytes(Steps(ops[..|ops| - 1], capacity), ops[|ops| - 1], capacity);
    }
  }

  lemma StepKeepsBytes(r: Run, op: Op, capacity: nat)
    requires r.accepted == AllBytes(r.left) + r.queue && |r.queue| <= capacity
    ensures var r' := Step(r, op, capacity); r'.accepted == AllBytes(r'.left) + r'.queue && |r'.queue| <= capacity
  {
    match op
    case Write(src) =>
      Assoc(AllBytes(r.left), r.queue, src);
    case Read(bytes) =>
      var n := Min(bytes, |r.queue|);
      PieceAppended(r.left, Delivered(r.queue[..n]));
      assert r.queue == r.queue[..n] + r.queue[n..];
      Assoc(AllBytes(r.left), r.queue[..n], r.queue[n..]);
    case Clear =>
      PieceAppended(r.left, Discarded(r.queue));
      assert r.accepted + [] == r.accepted;
  }

  /** Without Clear the readers receive a prefix of what was accepted. */
  lemma {:induction false} OutputIsPrefix(ops: seq<Op>, capacity: nat)
    requires Clear !in ops
    ensures var r := Steps(ops, capacity); Output(r.left) == AllBytes(r.left) && Output(r.left) <= r.accepted
  {
    NothingLostOrReordered(ops, capacity);
    if ops != [] {
      var before, op := ops[..|ops| - 1], ops[|ops| - 1];
      assert op in ops;
      OutputIsPrefix(before, capacity);
      var r := Steps(before, capacity);
      if op.Read? { PieceAppended(r.left, Delivered(r.queue[..Min(op.bytes, |r.queue|)])); }
    }
  }

  // ----- wrap-around -----

  // The n bytes from position p on, continuing at the start of the array.
  function Wrapped(a: seq<byte>, p: nat, n: nat): (s: seq<byte>)
    requires p < |a| && n <= |a|
    ensures |s| == n
  {
    if p + n <= |a| then a[p..p + n] else a[p..] + a[..p + n - |a|]
  }

  // Position p advanced by n, going round at most once.
  function Advance(p: nat, n: nat, capacity: nat): (q: nat)
    requires p < capacity && n <= capacity
    ensures q < capacity
  {
    if p + n < capacity then p + n else p + n - capacity
  }

  lemma AdvanceIsRemainder(p: nat, n: nat, capacity: nat)
    requires p < capacity && n <= capacity
    ensures (p + n) % capacity == Advance(p, n, capacity)
  {
    var x := p + n;
    assert x == capacity * (x / capacity) + x % capacity;
    if x < capacity {
      QuotientUnique(x, capacity, 0, x);
    } else {
      QuotientUnique(x, capacity, 1, x - capacity);
    }
  }

  lemma AdvanceTwice(p: nat, m: nat, n: nat, c: nat)
    requires p < c && m + n <= c
    ensures Advance(Advance(p, m, c), n, c) == Advance(p, m + n, c)
  {
  }

  lemma WrappedAt(a: seq<byte>, p: nat, n: nat, i: nat)
    requires p < |a| && i < n <= |a|
    ensures Wrapped(a, p, n)[i] == a[Advance(p, i, |a|)]
  {
  }

  lemma WrappedSplit(a: seq<byte>, p: nat, m: nat, n: nat)
    requires p < |a| && m + n <= |a|
    ensures Wrapped(a, p, m + n) == Wrapped(a, p, m) + Wrapped(a, Advance(p, m, |a|), n)
  {
    var whole, left, right := Wrapped(a, p, m + n), Wrapped(a, p, m), Wrapped(a, Advance(p, m, |a|), n);
    forall i: nat | i < m + n
      ensures whole[i] == (left + right)[i]
    {
      WrappedAt(a, p, m + n, i);
      if i < m {
        WrappedAt(a, p, m, i);
      } else {
        WrappedAt(a, Advance(p, m, |a|), n, i - m);
        AdvanceTwice(p, m, i - m, |a|);
      }
    }
  }

  // What `memcpy` of src to position p leaves.
  function Patched(a: seq<byte>, p: nat, src: seq<byte>): (r: seq<byte>)
    requires p + |src| <= |a|
    ensures |r| == |a|
  {
    a[..p] + src + a[p + |src|..]
  }

  lemma PatchNothing(a: seq<byte>, p: nat)
    requires p <= |a|
    ensures Patched(a, p, []) == a
  {
  }

  lemma TwoPatches(a: seq<byte>, x: seq<byte>, y: seq<byte>)
    requires |x| + |y| <= |a|
    ensures Patched(Patched(a, 0, x), |x|, y) == x + y + a[|x| + |y|..]
  {
    var b := Patched(a, 0, x);
    assert b[..|x|] == x;
    assert b[|x| + |y|..] == a[|x| + |y|..];
  }

  // Copying out n bytes from position p, going round at most once.
  function Loaded(d: seq<byte>, a: seq<byte>, p: nat, n: nat): seq<byte>
    requires p < |a| && n <= |a| && n <= |d|
  {
    var first := Min(n, |a| - p);
    Patched(Patched(d, 0, a[p..p + first]), first, a[..n - first])
  }

  lemma LoadedIsWrapped(d: seq<byte>, a: seq<byte>, p: nat, n: nat)
    requires p < |a| && n <= |a| && n <= |d|
    ensures Loaded(d, a, p, n) == Wrapped(a, p, n) + d[n..]
  {
    var first := Min(n, |a| - p);
    TwoPatches(d, a[p..p + first], a[..n - first]);
  }

  // The array after src has been copied to position p, going round at most once.
  function Stored(a: seq<byte>, p: nat, src: seq<byte>): (r: seq<byte>)
    requires p < |a| && |src| <= |a|
    ensures |r| == |a|
  {
    var first := Min(|src|, |a| - p);
    Patched(Patched(a, p, src[..first]), 0, src[first..])
  }

  /** The copied bytes are found again, and no other position changes. */
  lemma StoredAt(a: seq<byte>, p: nat, src: seq<byte>, i: nat)
    requires p < |a| && |src| <= |a| && i < |a|
    ensures Stored(a, p, src)[Advance(p, i, |a|)] == if i < |src| then src[i] else a[Advance(p, i, |a|)]
  {
  }

  lemma StoredKeepsQueue(a: seq<byte>, p: nat, n: nat, src: seq<byte>, i: nat)
    requires p < |a| && n + |src| <= |a| && i < n
    ensures Stored(a, Advance(p, n, |a|), src)[Advance(p, i, |a|)] == a[Advance(p, i, |a|)]
  {
    // Position i of the queue lies |a| - n + i places behind the write position.
    Behind(p, n, i, |a|);
    StoredAt(a, Advance(p, n, |a|), src, |a| - n + i);
  }

  lemma WrappedSame(a: seq<byte>, b: seq<byte>, p: nat, n: nat)
    requires p < |a| == |b| && n <= |a|
    requires forall i: nat :: i < n ==> b[Advance(p, i, |a|)] == a[Advance(p, i, |a|)]
    ensures Wrapped(b, p, n) == Wrapped(a, p, n)
  {
    forall i: nat | i < n
      ensures Wrapped(b, p, n)[i] == Wrapped(a, p, n)[i]
    {
      WrappedAt(a, p, n, i);
      WrappedAt(b, p, n, i);
    }
  }

  lemma StoredIsRead(a: seq<byte>, q: nat, src: seq<byte>)
    requires q < |a| && |src| <= |a|
    ensures Wrapped(Stored(a, q, src), q, |src|) == src
  {
    forall i: nat | i < |src|
      ensures Wrapped(Stored(a, q, src), q, |src|)[i] == src[i]
    {
      WrappedAt(Stored(a, q, src), q, |src|, i);
      StoredAt(a, q, src, i);
    }
  }

  /** Storing behind the queued bytes appends to the queue. */
  lemma StoredAppends(a: seq<byte>, p: nat, n: nat, src: seq<byte>)
    requires p < |a| && n + |src| <= |a|
    ensures Wrapped(Stored(a, Advance(p, n, |a|), src), p, n + |src|) == Wrapped(a, p, n) + src
    ensures (Advance(p, n, |a|) + |src|) % |a| == Advance(p, n + |src|, |a|)
  {
    var q := Advance(p, n, |a|);
    var b := Stored(a, q, src);
    AdvanceTwice(p, n, |src|, |a|);
    AdvanceIsRemainder(q, |src|, |a|);
    forall i: nat | i < n
      ensures b[Advance(p, i, |a|)] == a[Advance(p, i, |a|)]
    {
      StoredKeepsQueue(a, p, n, src, i);
    }
    WrappedSame(a, b, p, n);
    StoredIsRead(a, q, src);
    WrappedSplit(b, p, n, |src|);
  }

  /** Reading from the front leaves the rest of the queue. */
  lemma ReadSplits(a: seq<byte>, p: nat, used: nat, n: nat)
    requires p < |a| && n <= used <= |a|
    ensures Wrapped(a, p, used)[..n] == Wrapped(a, p, n)
    ensures Wrapped(a, p, used)[n..] == Wrapped(a, Advance(p, n, |a|), used - n)
    ensures (p + n) % |a| == Advance(p, n, |a|)
    ensures Advance(Advance(p, n, |a|), used - n, |a|) == Advance(p, used, |a|)
  {
    WrappedSplit(a, p, n, used - n);
    AdvanceTwice(p, n, used - n, |a|);
    AdvanceIsRemainder(p, n, |a|);
  }

  // The caller's buffer after a read: the front of the queue, and the rest as it was.
  lemma LoadedShows(d: seq<byte>, a: seq<byte>, p: nat, used: nat, n: nat)
    requires p < |a| && n <= used <= |a| && n <= |d|
    ensures |Loaded(d, a, p, n)| == |d|
    ensures Loaded(d, a, p, n)[..n] == Wrapped(a, p, used)[..n]
    ensures Loaded(d, a, p, n)[n..] == d[n..]
  {
    LoadedIsWrapped(d, a, p, n);
    ReadSplits(a, p, used, n);
  }

  lemma Behind(p: nat, n: nat, i: nat, c: nat)
    requires p < c && i < n <= c
    ensures Advance(Advance(p, n, c), c - n + i, c) == Advance(p, i, c)
  {
  }

  // ----- the buffer -----

  class RingBuffer {
    const data: array<byte>
    var readPos: nat
    var writePos: nat
    var used: nat

    constructor (capacity: nat)
      requires capacity > 0
      ensures Valid() && fresh(data) && data.Length == capacity && Contents() == []
    {
      data := new byte[capacity](i => 0);
      readPos := 0;
      writePos := 0;
      used := 0;
    }

    ghost predicate Valid()
      reads this, data
    {
      && readPos < data.Length
      && used <= data.Length
      && writePos == Advance(readPos, used, data.Length)
    }

    ghost function Contents(): seq<byte>
      reads this, data
      requires Valid()
    {
      Wrapped(data[..], readPos, used)
    }

    function Free(): nat
      reads this, data
      requires Valid()
    {
      data.Length - used
    }

    // `memcpy(data + at, src, |src|)`.
    method CopyIn(at: nat, src: seq<byte>)
      requires at + |src| <= data.Length
      modifies data
      ensures data[..] == Patched(old(data[..]), at, src)
    {
      forall i | 0 <= i < |src| {
        data[at + i] := src[i];
      }
    }

    // The one or two copies of a write.
    method Store(src: seq<byte>)
      requires Valid() && |src| <= data.Length
      modifies data
      ensures data[..] == Stored(old(data[..]), writePos, src)
    {
      var first := Min(|src|, data.Length - writePos);
      CopyIn(writePos, src[..first]);
      if |src| > first {
        CopyIn(0, src[first..]);
      } else {
        PatchNothing(data[..], 0);
      }
    }

    method Write(src: seq<byte>) returns (ok: bool)
      requires Valid()
      modifies this, data
      ensures Valid()
      ensures ok <==> |old(Contents())| + |src| <= data.Length
      ensures Contents() == if ok then old(Contents()) + src else old(Contents())
      ensures !ok ==> readPos == old(readPos) && writePos == old(writePos) && data[..] == old(data[..])
    {
      if |src| > Free() { return false; }
      var cap := data.Length;
      StoredAppends(data[..], readPos, used, src);
      Store(src);
      writePos := (writePos + |src|) % cap;
      used := used + |src|;
      ok := true;
    }

    // `memcpy(dst + to, data + from, n)`.
    method CopyOut(dst: array<byte>, to: nat, from: nat, n: nat)
      requires dst != data && to + n <= dst.Length && from + n <= data.Length
      modifies dst
      ensures dst[..] == Patched(old(dst[..]), to, data[..][from..from + n])
    {
      forall i | 0 <= i < n {
        dst[to + i] := data[from + i];
      }
    }

    // The second copy of a read that goes round, if there is one.
    method LoadRest(dst: array<byte>, first: nat, n: nat)
      requires dst != data && first <= n <= dst.Length && n - first <= data.Length
      modifies dst
      ensures dst[..] == Patched(old(dst[..]), first, data[..][..n - first])
    {
      if n > first {
        CopyOut(dst, first, 0, n - first);
      } else {
        PatchNothing(dst[..], first);
      }
    }

    // The one or two copies of a read.
    method Load(dst: array<byte>, n: nat)
      requires Valid() && dst != data && n <= dst.Length && n <= data.Length
      modifies dst
      ensures dst[..] == Loaded(old(dst[..]), data[..], readPos, n)
    {
      var first := Min(n, data.Length - readPos);
      ghost var d0, a := dst[..], data[..];
      CopyOut(dst, 0, readPos, first);
      ghost var d1 := Patched(d0, 0, a[readPos..readPos + first]);
      assert dst[..] == d1 && data[..] == a;
      LoadRest(dst, first, n);
      assert dst[..] == Patched(d1, first, a[..n - first]);
    }

    // The same, in terms of the queue.
    method Show(dst: array<byte>, n: nat)
      requires Valid() && dst != data && n <= dst.Length && n <= used
      modifies dst
      ensures dst[..n] == Contents()[..n] && dst[n..] == old(dst[..])[n..]
    {
      LoadedShows(dst[..], data[..], readPos, used, n);
      Load(dst, n);
    }

    method Read(dst: array<byte>, bytes: nat) returns (n: nat)
      requires Valid() && dst != data && bytes <= dst.Length
      modifies this, dst
      ensures Valid()
      ensures n == if bytes < |old(Contents())| then bytes else |old(Contents())|
      ensures dst[..n] == old(Contents())[..n] && dst[n..] == old(dst[..])[n..]
      ensures Contents() == old(Contents())[n..]
    {
      n := Min(bytes, used);
      var cap := data.Length;
      ReadSplits(data[..], readPos, used, n);
      Show(dst, n);
      readPos := (readPos + n) % cap;
      used := used - n;
    }

    method Clear()
      requires Valid()
      modifies this
      ensures Valid() && Contents() == []
    {
      readPos := 0;
      writePos := 0;
      used := 0;
    }
  }

  // One operation, and what it took in and gave out.
  method DriveOne(rb: RingBuffer, op: Op, ghost run: Run) returns (took: seq<byte>, gave: seq<byte>)
    requires rb.Valid() && rb.Contents() == run.queue
    modifies rb, rb.data
    ensures rb.Valid()
    ensures var next := Step(run, op, rb.data.Length);
      && rb.Contents() == next.queue
      && next.accepted == run.accepted + took
      && Output(next.left) == Output(run.left) + gave
  {
    took, gave := [], [];
    match op {
      case Write(src) =>
        var ok := rb.Write(src);
        if ok { took := src; }
      case Read(bytes) =>
        var dst := new byte[bytes](i => 0);
        var n := rb.Read(dst, bytes);
        gave := dst[..n];
        PieceAppended(run.left, Delivered(gave));
      case Clear =>
        PieceAppended(run.left, Discarded(run.queue));
        rb.Clear();
    }
  }

  /** Any run on a fresh buffer: it accepts, delivers and keeps what the queue would. */
  method Drive(ops: seq<Op>, capacity: nat) returns (accepted: seq<byte>, delivered: seq<byte>)
    requires capacity > 0
    ensures accepted == Steps(ops, capacity).accepted && delivered == Output(Steps(ops, capacity).left)
    ensures Clear !in ops ==> delivered <= accepted
  {
    var rb := new RingBuffer(capacity);
    accepted, delivered := [], [];
    for k := 0 to |ops|
      invariant rb.Valid() && fresh(rb) && fresh(rb.data) && rb.data.Length == capacity
      invariant var run := Steps(ops[..k], capacity);
        rb.Contents() == run.queue && accepted == run.accepted && delivered == Output(run.left)
    {
      StepsSnoc(ops, k, capacity);
      var took, gave := DriveOne(rb, ops[k], Steps(ops[..k], capacity));
      accepted, delivered := accepted + took, delivered + gave;
    }
    assert ops[..|ops|] == ops;
    if Clear !in ops { OutputIsPrefix(ops, capacity); }
  }

  lemma StepsSnoc(ops: seq<Op>, k: nat, capacity: nat)
    requires k < |ops|
    ensures Steps(ops[..k + 1], capacity) == Step(Steps(ops[..k], capacity), ops[k], capacity)
  {
    assert ops[..k + 1][..k] == ops[..k];
  }
}
