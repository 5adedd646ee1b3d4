/** The bounded priority message queue of the kernel services. */
module MessageQueues {
  import opened Words

  datatype Msg = Msg(data: seq<byte>, priority: u32)

  // ----- what the queue stands for -----

  // A queued message and the number of messages accepted before it.
  datatype Stamped = Stamped(msg: Msg, stamp: nat)

  // Higher priority first; among equals the newest first.
  predicate Before(a: Stamped, b: Stamped) {
    a.msg.priority > b.msg.priority || (a.msg.priority == b.msg.priority && a.stamp > b.stamp)
  }

  datatype Run = Run(queue: seq<Stamped>, sent: seq<Stamped>, received: seq<Stamped>)

  datatype Attr = Attr(maxMessages: u32, maxMsgSize: u32)

  datatype Op = Send(data: seq<byte>, priority: u32) | Recv

  function Clip(data: seq<byte>, size: nat): seq<byte> {
    if |data| > size then data[..size] else data
  }

  // Where a message of this priority goes: in front of the first that is not of higher priority.
  function Place(q: seq<Stamped>, priority: u32): (i: nat)
    ensures i <= |q|
  {
    if q == [] || q[0].msg.priority <= priority then 0 else 1 + Place(q[1..], priority)
  }

  function Insert(q: seq<Stamped>, m: Stamped): (r: seq<Stamped>)
    ensures |r| == |q| + 1
  {
    var i := Place(q, m.msg.priority);
    q[..i] + [m] + q[i..]
  }

  // A send to a full queue and a receive from an empty one time out and change nothing.
  function Step(run: Run, op: Op, attr: Attr): Run {
    match op
    case Send(data, priority) =>
      if |run.queue| >= attr.maxMessages then run
      else
        var m := Stamped(Msg(Clip(data, attr.maxMsgSize), priority), |run.sent|);
        run.(queue := Insert(run.queue, m), sent := run.sent + [m])
    case Recv =>
      if run.queue == [] then run
      else run.(queue := run.queue[1..], received := run.received + [run.queue[0]])
  }

  function Steps(ops: seq<Op>, attr: Attr): Run {
    if ops == [] then Run([], [], []) else Step(Steps(ops[..|ops| - 1], attr), ops[|ops| - 1], attr)
  }

  // ----- what every run keeps -----

  ghost predicate Ordered(q: seq<Stamped>) {
    forall i, j :: 0 <= i < j < |q| ==> Before(q[i], q[j])
  }

  ghost predicate Inv(run: Run, attr: Attr) {
    && Ordered(run.queue)
    && |run.queue| <= attr.maxMessages
    && multiset(run.sent) == multiset(run.received) + multiset(run.queue)
    && (forall i :: 0 <= i < |run.queue| ==> run.queue[i].stamp < |run.sent|)
  }

  lemma {:induction false} PlaceSplits(q: seq<Stamped>, priority: u32)
    requires Ordered(q)
    ensures var i := Place(q, priority);
      && (forall k :: 0 <= k < i ==> q[k].msg.priority > priority)
      && (forall k :: i <= k < |q| ==> q[k].msg.priority <= priority)
  {
    if q != [] && q[0].msg.priority > priority {
      PlaceSplits(q[1..], priority);
      var i := Place(q[1..], priority);
      forall k | 0 <= k < |q|
        ensures if k < 1 + i then q[k].msg.priority > priority else q[k].msg.priority <= priority
      {
        if k > 0 { assert q[k] == q[1..][k - 1]; }
      }
    }
  }

  lemma InsertAt(q: seq<Stamped>, m: Stamped, k: nat)
    requires k <= |q|
    ensures var i := Place(q, m.msg.priority);
      Insert(q, m)[k] == if k < i then q[k] else if k == i then m else q[k - 1]
  {
  }

  lemma InsertKeepsOrder(q: seq<Stamped>, m: Stamped)
    requires Ordered(q) && forall i :: 0 <= i < |q| ==> q[i].stamp < m.stamp
    ensures Ordered(Insert(q, m))
  {
    PlaceSplits(q, m.msg.priority);
    forall j, k | 0 <= j < k <= |q|
      ensures Before(Insert(q, m)[j], Insert(q, m)[k])
    {
      InsertAt(q, m, j);
      InsertAt(q, m, k);
    }
  }

  lemma InsertAdds(q: seq<Stamped>, m: Stamped)
    ensures multiset(Insert(q, m)) == multiset(q) + multiset{m}
  {
    var i := Place(q, m.msg.priority);
    assert q == q[..i] + q[i..];
  }

  lemma SendKeepsInv(run: Run, data: seq<byte>, priority: u32, attr: Attr)
    requires Inv(run, attr)
    ensures Inv(Step(run, Send(data, priority), attr), attr)
  {
    if |run.queue| < attr.maxMessages {
      var m := Stamped(Msg(Clip(data, attr.maxMsgSize), priority), |run.sent|);
      InsertKeepsOrder(run.queue, m);
      InsertAdds(run.queue, m);
      var after := Insert(run.queue, m);
      forall k | 0 <= k < |after|
        ensures after[k].stamp < |run.sent| + 1
      {
        InsertAt(run.queue, m, k);
      }
    }
  }

  lemma RecvKeepsInv(run: Run, attr: Attr)
    requires Inv(run, attr)
    ensures Inv(Step(run, Recv, attr), attr)
  {
    if run.queue != [] {
      assert run.queue == [run.queue[0]] + run.queue[1..];
    }
  }

  /** Every reachable queue is in order and within its bound, and messages are neither lost nor made up. */
  lemma {:induction false} EveryRunKeepsInv(ops: seq<Op>, attr: Attr)
    ensures Inv(Steps(ops, attr), attr)
  {
    if ops != [] {
      EveryRunKeepsInv(ops[..|ops| - 1], attr);
      var run := Steps(ops[..|ops| - 1], attr);
      match ops[|ops| - 1]
      case Send(data, priority) => SendKeepsInv(run, data, priority, attr);
      case Recv => RecvKeepsInv(run, attr);
    }
  }

  /** A receive takes the newest message of the highest priority, whatever happened before. */
  lemma ReceivesNewestOfHighest(ops: seq<Op>, attr: Attr, x: Stamped)
    requires var q := Steps(ops, attr).queue; x in q && x != q[0]
    ensures var q := Steps(ops, attr).queue;
      var after := Steps(ops + [Recv], attr);
      after.received == Steps(ops, attr).received + [q[0]] && Before(q[0], x)
  {
    EveryRunKeepsInv(ops, attr);
    assert (ops + [Recv])[..|ops|] == ops;
  }

  // ----- the queue of the source -----

  function Messages(q: seq<Stamped>): (r: seq<Msg>)
    ensures |r| == |q|
    ensures forall i :: 0 <= i < |q| ==> r[i] == q[i].msg
  {
    seq(|q|, i requires 0 <= i < |q| => q[i].msg)
  }

  lemma MessagesInsert(q: seq<Stamped>, m: Stamped)
    ensures var i := Place(q, m.msg.priority);
      Messages(Insert(q, m)) == Messages(q)[..i] + [m.msg] + Messages(q)[i..]
  {
  }

  lemma MessagesTail(q: seq<Stamped>)
    requires q != []
    ensures Messages(q[1..]) == Messages(q)[1..]
  {
  }

  /** The new message stands behind all of higher priority and in front of the rest; nothing else moves. */
  ghost predicate PutIn(before: seq<Msg>, after: seq<Msg>, m: Msg) {
    exists i :: PutAt(before, after, m, i)
  }

  predicate PutAt(before: seq<Msg>, after: seq<Msg>, m: Msg, i: nat) {
    && i <= |before| && after == before[..i] + [m] + before[i..]
    && (forall k :: 0 <= k < i ==> before[k].priority > m.priority)
    && (forall k :: i <= k < |before| ==> before[k].priority <= m.priority)
  }

  lemma PutInAt(before: seq<Msg>, after: seq<Msg>, m: Msg, i: nat)
    requires PutAt(before, after, m, i)
    ensures PutIn(before, after, m)
  {
  }

  class MqEntry {
    const attr: Attr
    var msgs: seq<Msg>
    ghost var run: Run

    constructor (attr: Attr)
      ensures this.attr == attr && Valid() && run == Run([], [], [])
    {
      this.attr := attr;
      msgs := [];
      run := Run([], [], []);
    }

    ghost predicate Valid()
      reads this
    {
      msgs == Messages(run.queue) && Inv(run, attr)
    }

    // `std::lower_bound` on the priorities, which do not increase along the queue.
    method LowerBound(priority: u32) returns (first: nat)
      requires Valid()
      ensures first == Place(run.queue, priority)
    {
      first := 0;
      var count := |msgs|;
      PlaceSplits(run.queue, priority);
      while count > 0
        invariant first + count <= |msgs|
        invariant first <= Place(run.queue, priority) <= first + count
      {
        var half := count / 2;
        var mid := first + half;
        if msgs[mid].priority > priority {
          first := mid + 1;
          count := count - half - 1;
        } else {
          count := half;
        }
      }
    }

    method SendMsg(data: seq<byte>, priority: u32) returns (ok: bool)
      requires Valid()
      modifies this
      ensures Valid()
      ensures ok <==> |old(msgs)| < attr.maxMessages
      ensures run == Step(old(run), Send(data, priority), attr)
      ensures !ok ==> msgs == old(msgs)
      ensures ok ==> PutIn(old(msgs), msgs,
        Msg(if |data| <= attr.maxMsgSize then data else data[..attr.maxMsgSize], priority))
    {
      SendKeepsInv(run, data, priority, attr);
      if |msgs| >= attr.maxMessages { return false; }
      var size := |data|;
      if size > attr.maxMsgSize { size := attr.maxMsgSize; }
      var msg := Msg(data[..size], priority);
      assert msg.data == Clip(data, attr.maxMsgSize);
      MessagesInsert(run.queue, Stamped(msg, |run.sent|));
      var ins := LowerBound(priority);
      ghost var before := msgs;
      PlaceSplits(run.queue, priority);
      msgs := msgs[..ins] + [msg] + msgs[ins..];
      run := Step(run, Send(data, priority), attr);
      PutInAt(before, msgs, msg, ins);
      ok := true;
    }

    // `memcpy(buf, src, |src|)`.
    method CopyOut(buf: array<byte>, src: seq<byte>)
      requires |src| <= buf.Length
      modifies buf
      ensures buf[..|src|] == src && buf[|src|..] == old(buf[..])[|src|..]
    {
      forall i | 0 <= i < |src| {
        buf[i] := src[i];
      }
    }

    // The part of the message that fits in the caller's buffer is copied; the rest is dropped with it.
    method RecvMsg(buf: array<byte>, bufSize: nat) returns (ok: bool, n: nat, priority: u32)
      requires Valid() && bufSize <= buf.Length
      modifies this, buf
      ensures Valid()
      ensures ok <==> old(msgs) != []
      ensures run == Step(old(run), Recv, attr)
      ensures ok ==>
        var m := old(msgs)[0];
        && msgs == old(msgs)[1..] && priority == m.priority
        && n == (if |m.data| < bufSize then |m.data| else bufSize)
        && buf[..n] == m.data[..n] && buf[n..] == old(buf[..])[n..]
      ensures !ok ==> msgs == old(msgs) && buf[..] == old(buf[..])
    {
      RecvKeepsInv(run, attr);
      if msgs == [] { return false, 0, 0; }
      MessagesTail(run.queue);
      var msg := msgs[0];
      n := if |msg.data| < bufSize then |msg.data| else bufSize;
      CopyOut(buf, msg.data[..n]);
      priority := msg.priority;
      msgs := msgs[1..];
      run := Step(run, Recv, attr);
      ok := true;
    }

    function MqDepth(): (d: nat)
      reads this
    {
      |msgs| % U32
    }
  }

  /** The reported depth is the number of queued messages: it never wraps. */
  lemma DepthIsExact(mq: MqEntry)
    requires mq.Valid()
    ensures mq.MqDepth() == |mq.run.queue| == |mq.run.sent| - |mq.run.received|
  {
    SmallModulus(|mq.msgs|);
    assert |multiset(mq.run.sent)| == |multiset(mq.run.received)| + |multiset(mq.run.queue)|;
  }
}
