/** Command lists: the builder that appends packets and the loop that takes them apart. */
module CommandProcessor {
  import opened Blobs
  import opened Options
  import opened Words

  // ----- packets -----

  const NOP: u32 := 0x0000
  const SET_RENDER_TARGET: u32 := 0x0001
  const SET_DEPTH_TARGET: u32 := 0x0002
  const CLEAR_COLOR: u32 := 0x0010
  const CLEAR_DEPTH: u32 := 0x0011
  const DRAW_INDEXED: u32 := 0x0100
  const DRAW_DIRECT: u32 := 0x0101
  const DISPATCH: u32 := 0x0200
  const SET_VIEWPORT: u32 := 0x0300
  const SET_SCISSOR: u32 := 0x0301
  const BARRIER: u32 := 0x0400
  const WAIT_FENCE: u32 := 0x0500
  const SIGNAL_FENCE: u32 := 0x0501
  const BEGIN_RENDER_PASS: u32 := 0x0600
  const END_RENDER_PASS: u32 := 0x0601
  const PUSH_DEBUG_LABEL: u32 := 0x0700
  const POP_DEBUG_LABEL: u32 := 0x0701
  const END: u32 := 0xFFFF

  // Floats and signed integers are their 32-bit patterns. A viewport and a scissor keep their packed
  // payload, which the processor skips without reading.
  datatype Command =
    | Nop
    | SetRenderTarget(slot: u32, addr: u64, width: u32, height: u32, pitch: u32, format: u32)
    | SetDepthTarget(addr: u64, width: u32, height: u32, format: u32)
    | ClearColor(slot: u32, r: u32, g: u32, b: u32, a: u32)
    | ClearDepth(depth: u32, stencil: u32)
    | DrawIndexed(indexCount: u32, instances: u32, firstIndex: u32, vertexOffset: u32, firstInstance: u32)
    | DrawDirect(vertexCount: u32, instances: u32, firstVertex: u32, firstInstance: u32)
    | Dispatch(gx: u32, gy: u32, gz: u32)
    | SetViewport(raw: seq<byte>)
    | SetScissor(raw: seq<byte>)
    | Barrier(addr: u64, before: u32, after: u32)
    | WaitFence(h: u32)
    | SignalFence(h: u32)
    | BeginRenderPass(text: seq<byte>)
    | EndRenderPass
    | PushDebugLabel(text: seq<byte>)
    | PopDebugLabel

  const VIEWPORT_SIZE: nat := 24
  const SCISSOR_SIZE: nat := 16

  // The payloads the builder can pass on.
  predicate Buildable(c: Command) {
    match c
    case SetViewport(raw) => |raw| == VIEWPORT_SIZE
    case SetScissor(raw) => |raw| == SCISSOR_SIZE
    case _ => true
  }

  // A field of n bytes followed by the rest of the buffer.
  function Put(v: nat, n: nat, rest: seq<byte>): seq<byte> {
    Le(v, n) + rest
  }

  function Put32(v: u32, rest: seq<byte>): seq<byte> {
    Put(v, SIZE32, rest)
  }

  function Put64(v: u64, rest: seq<byte>): seq<byte> {
    Put(v, SIZE64, rest)
  }

  // The bytes of a viewport and of a scissor.
  function PackViewport(x: u32, y: u32, width: u32, height: u32, minDepth: u32, maxDepth: u32): (raw: seq<byte>)
    ensures |raw| == VIEWPORT_SIZE
  {
    Put32(x, Put32(y, Put32(width, Put32(height, Put32(minDepth, Put32(maxDepth, []))))))
  }

  function PackScissor(x: u32, y: u32, width: u32, height: u32): (raw: seq<byte>)
    ensures |raw| == SCISSOR_SIZE
  {
    Put32(x, Put32(y, Put32(width, Put32(height, []))))
  }

  function Opcode(c: Command): u32 {
    match c
    case Nop => NOP
    case SetRenderTarget(_, _, _, _, _, _) => SET_RENDER_TARGET
    case SetDepthTarget(_, _, _, _) => SET_DEPTH_TARGET
    case ClearColor(_, _, _, _, _) => CLEAR_COLOR
    case ClearDepth(_, _) => CLEAR_DEPTH
    case DrawIndexed(_, _, _, _, _) => DRAW_INDEXED
    case DrawDirect(_, _, _, _) => DRAW_DIRECT
    case Dispatch(_, _, _) => DISPATCH
    case SetViewport(_) => SET_VIEWPORT
    case SetScissor(_) => SET_SCISSOR
    case Barrier(_, _, _) => BARRIER
    case WaitFence(_) => WAIT_FENCE
    case SignalFence(_) => SIGNAL_FENCE
    case BeginRenderPass(_) => BEGIN_RENDER_PASS
    case EndRenderPass => END_RENDER_PASS
    case PushDebugLabel(_) => PUSH_DEBUG_LABEL
    case PopDebugLabel => POP_DEBUG_LABEL
  }

  function Payload(c: Command, rest: seq<byte>): seq<byte> {
    match c
    case SetRenderTarget(slot, addr, width, height, pitch, format) =>
      Put32(slot, Put64(addr, Put32(width, Put32(height, Put32(pitch, Put32(format, rest))))))
    case SetDepthTarget(addr, width, height, format) =>
      Put64(addr, Put32(width, Put32(height, Put32(format, rest))))
    case ClearColor(slot, r, g, b, a) => Put32(slot, Put32(r, Put32(g, Put32(b, Put32(a, rest)))))
    case ClearDepth(depth, stencil) => Put32(depth, Put32(stencil, rest))
    case DrawIndexed(ic, inst, fi, vo, fii) => Put32(ic, Put32(inst, Put32(fi, Put32(vo, Put32(fii, rest)))))
    case DrawDirect(vc, ic, fv, fi) => Put32(vc, Put32(ic, Put32(fv, Put32(fi, rest))))
    case Dispatch(gx, gy, gz) => Put32(gx, Put32(gy, Put32(gz, rest)))
    case SetViewport(raw) => raw + rest
    case SetScissor(raw) => raw + rest
    case Barrier(addr, before, after) => Put64(addr, Put32(before, Put32(after, rest)))
    case WaitFence(h) => Put32(h, rest)
    case SignalFence(h) => Put32(h, rest)
    case BeginRenderPass(text) => EncodeStr(text) + rest
    case PushDebugLabel(text) => EncodeStr(text) + rest
    case Nop | EndRenderPass | PopDebugLabel => rest
  }

  // The packet of `c` followed by the rest of the buffer.
  function Encode(c: Command, rest: seq<byte>): seq<byte> {
    Put32(Opcode(c), Payload(c, rest))
  }

  function EncodeAll(cmds: seq<Command>, rest: seq<byte>): seq<byte> {
    if cmds == [] then rest else Encode(cmds[0], EncodeAll(cmds[1..], rest))
  }

  // ----- the builder -----

  class CommandList {
    var buf: seq<byte>

    constructor ()
      ensures buf == []
    {
      buf := [];
    }

    method WriteBytes(data: seq<byte>)
      modifies this
      ensures buf == old(buf) + data
    {
      buf := buf + data;
    }

    method WriteU32(v: u32)
      modifies this
      ensures forall rest: seq<byte> :: buf + rest == old(buf) + Put32(v, rest)
    {
      WriteBytes(Le(v, SIZE32));
      forall rest: seq<byte>
        ensures buf + rest == old(buf) + Put32(v, rest)
      {
        Assoc(old(buf), Le(v, SIZE32), rest);
      }
    }

    method WriteU64(v: u64)
      modifies this
      ensures forall rest: seq<byte> :: buf + rest == old(buf) + Put64(v, rest)
    {
      WriteBytes(Le(v, SIZE64));
      forall rest: seq<byte>
        ensures buf + rest == old(buf) + Put64(v, rest)
      {
        Assoc(old(buf), Le(v, SIZE64), rest);
      }
    }

    method Nop()
      modifies this
      ensures buf == old(buf) + Encode(Command.Nop, [])
    {
      WriteU32(NOP);
      assert buf == buf + [];
    }

    method SetRenderTarget(slot: u32, addr: u64, width: u32, height: u32, pitch: u32, format: u32)
      modifies this
      ensures buf == old(buf) + Encode(Command.SetRenderTarget(slot, addr, width, height, pitch, format), [])
    {
      WriteU32(SET_RENDER_TARGET);
      WriteU32(slot);
      WriteU64(addr);
      WriteU32(width);
      WriteU32(height);
      WriteU32(pitch);
      WriteU32(format);
      assert buf == buf + [];
    }

    method SetDepthTarget(addr: u64, width: u32, height: u32, format: u32)
      modifies this
      ensures buf == old(buf) + Encode(Command.SetDepthTarget(addr, width, height, format), [])
    {
      WriteU32(SET_DEPTH_TARGET);
      WriteU64(addr);
      WriteU32(width);
      WriteU32(height);
      WriteU32(format);
      assert buf == buf + [];
    }

    method ClearColor(slot: u32, r: u32, g: u32, b: u32, a: u32)
      modifies this
      ensures buf == old(buf) + Encode(Command.ClearColor(slot, r, g, b, a), [])
    {
      WriteU32(CLEAR_COLOR);
      WriteU32(slot);
      WriteU32(r);
      WriteU32(g);
      WriteU32(b);
      WriteU32(a);
      assert buf == buf + [];
    }

    method ClearDepth(depth: u32, stencil: byte)
      modifies this
      ensures buf == old(buf) + Encode(Command.ClearDepth(depth, stencil), [])
    {
      WriteU32(CLEAR_DEPTH);
      WriteU32(depth);
      WriteU32(stencil);
      assert buf == buf + [];
    }

    method DrawDirect(vertexCount: u32, instances: u32, firstVertex: u32, firstInstance: u32)
      modifies this
      ensures buf == old(buf) + Encode(Command.DrawDirect(vertexCount, instances, firstVertex, firstInstance), [])
    {
      WriteU32(DRAW_DIRECT);
      WriteU32(vertexCount);
      WriteU32(instances);
      WriteU32(firstVertex);
      WriteU32(firstInstance);
      assert buf == buf + [];
    }

    method DrawIndexed(indexCount: u32, instances: u32, firstIndex: u32, vertexOffset: u32, firstInstance: u32)
      modifies this
      ensures buf == old(buf) +
        Encode(Command.DrawIndexed(indexCount, instances, firstIndex, vertexOffset, firstInstance), [])
    {
      WriteU32(DRAW_INDEXED);
      WriteU32(indexCount);
      WriteU32(instances);
      WriteU32(firstIndex);
      WriteU32(vertexOffset);
      WriteU32(firstInstance);
      assert buf == buf + [];
    }

    method Dispatch(gx: u32, gy: u32, gz: u32)
      modifies this
      ensures buf == old(buf) + Encode(Command.Dispatch(gx, gy, gz), [])
    {
      WriteU32(DISPATCH);
      WriteU32(gx);
      WriteU32(gy);
      WriteU32(gz);
      assert buf == buf + [];
    }

    method SetViewport(x: u32, y: u32, width: u32, height: u32, minDepth: u32, maxDepth: u32)
      modifies this
      ensures buf == old(buf) + Encode(Command.SetViewport(PackViewport(x, y, width, height, minDepth, maxDepth)), [])
    {
      WriteU32(SET_VIEWPORT);
      WriteU32(x);
      WriteU32(y);
      WriteU32(width);
      WriteU32(height);
      WriteU32(minDepth);
      WriteU32(maxDepth);
      ghost var raw := PackViewport(x, y, width, height, minDepth, maxDepth);
      assert buf + [] == old(buf) + Put32(SET_VIEWPORT, raw);
      assert buf == buf + [] && raw == raw + [];
    }

    method SetScissor(x: u32, y: u32, width: u32, height: u32)
      modifies this
      ensures buf == old(buf) + Encode(Command.SetScissor(PackScissor(x, y, width, height)), [])
    {
      WriteU32(SET_SCISSOR);
      WriteU32(x);
      WriteU32(y);
      WriteU32(width);
      WriteU32(height);
      ghost var raw := PackScissor(x, y, width, height);
      assert buf + [] == old(buf) + Put32(SET_SCISSOR, raw);
      assert buf == buf + [] && raw == raw + [];
    }

    method Barrier(addr: u64, before: byte, after: byte)
      modifies this
      ensures buf == old(buf) + Encode(Command.Barrier(addr, before, after), [])
    {
      WriteU32(BARRIER);
      WriteU64(addr);
      WriteU32(before);
      WriteU32(after);
      assert buf == buf + [];
    }

    method WaitFence(h: u32)
      modifies this
      ensures buf == old(buf) + Encode(Command.WaitFence(h), [])
    {
      WriteU32(WAIT_FENCE);
      WriteU32(h);
      assert buf == buf + [];
    }

    method SignalFence(h: u32)
      modifies this
      ensures buf == old(buf) + Encode(Command.SignalFence(h), [])
    {
      WriteU32(SIGNAL_FENCE);
      WriteU32(h);
      assert buf == buf + [];
    }

    // The length prefix of a label keeps 32 bits, and that many characters follow.
    method WriteLabel(text: seq<byte>)
      modifies this
      ensures buf == old(buf) + EncodeStr(text)
    {
      var len: u32 := |text| % U32;
      WriteU32(len);
      assert buf + [] == old(buf) + Put32(len, []);
      assert Put32(len, []) == Le(len, SIZE32);
      if len > 0 { WriteBytes(text[..len]); }
    }

    method BeginRenderPass(text: seq<byte>)
      modifies this
      ensures buf == old(buf) + Encode(Command.BeginRenderPass(text), [])
    {
      WriteU32(BEGIN_RENDER_PASS);
      assert buf + (EncodeStr(text) + []) == old(buf) + Put32(BEGIN_RENDER_PASS, EncodeStr(text) + []);
      WriteLabel(text);
      assert EncodeStr(text) + [] == EncodeStr(text);
    }

    method PushDebugLabel(text: seq<byte>)
      modifies this
      ensures buf == old(buf) + Encode(Command.PushDebugLabel(text), [])
    {
      WriteU32(PUSH_DEBUG_LABEL);
      assert buf + (EncodeStr(text) + []) == old(buf) + Put32(PUSH_DEBUG_LABEL, EncodeStr(text) + []);
      WriteLabel(text);
      assert EncodeStr(text) + [] == EncodeStr(text);
    }

    method EndRenderPass()
      modifies this
      ensures buf == old(buf) + Encode(Command.EndRenderPass, [])
    {
      WriteU32(END_RENDER_PASS);
      assert buf == buf + [];
    }

    method PopDebugLabel()
      modifies this
      ensures buf == old(buf) + Encode(Command.PopDebugLabel, [])
    {
      WriteU32(POP_DEBUG_LABEL);
      assert buf == buf + [];
    }

    method End()
      modifies this
      ensures buf == old(buf) + Put32(END, [])
    {
      WriteU32(END);
      assert buf == buf + [];
    }
  }

  // ----- the decoder -----

  // ReadVal: a field that does not fit reads as zero and leaves the position alone.
  function Get(s: seq<byte>, n: nat): (nat, seq<byte>) {
    if n <= |s| then (FromLe(s[..n]), s[n..]) else (0, s)
  }

  function Get32(s: seq<byte>): (r: (u32, seq<byte>)) {
    FieldBound(s);
    Get(s, SIZE32)
  }

  function Get64(s: seq<byte>): (r: (u64, seq<byte>)) {
    FieldBound(s);
    Get(s, SIZE64)
  }

  lemma FieldBound(s: seq<byte>)
    ensures Get(s, SIZE32).0 < U32 && Get(s, SIZE64).0 < U64
  {
    Pow256Sizes();
    if |s| >= 4 { FromLeBound(s[..4]); }
    if |s| >= 8 { FromLeBound(s[..8]); }
  }

  lemma GetPut32(v: u32, rest: seq<byte>)
    ensures Get32(Put32(v, rest)) == (v, rest)
  {
    FieldRoundTrip(v, SIZE32);
    PieceRead(Le(v, SIZE32), rest);
  }

  lemma GetPut64(v: u64, rest: seq<byte>)
    ensures Get64(Put64(v, rest)) == (v, rest)
  {
    FieldRoundTrip(v, SIZE64);
    PieceRead(Le(v, SIZE64), rest);
  }

  // Advancing the pointer by n bytes, possibly beyond the end.
  function Drop(s: seq<byte>, n: nat): seq<byte> {
    if n <= |s| then s[n..] else []
  }

  function Take(s: seq<byte>, n: nat): seq<byte> {
    if n <= |s| then s[..n] else s
  }

  // The fields of each packet, in the order the processor reads them.

  function GetClearColor(s: seq<byte>): (r: (Command, seq<byte>))
    ensures |r.1| <= |s|
  {
    var (slot, s1) := Get32(s);
    var (r, s2) := Get32(s1);
    var (g, s3) := Get32(s2);
    var (b, s4) := Get32(s3);
    var (a, s5) := Get32(s4);
    (ClearColor(slot, r, g, b, a), s5)
  }

  function GetClearDepth(s: seq<byte>): (r: (Command, seq<byte>))
    ensures |r.1| <= |s|
  {
    var (depth, s1) := Get32(s);
    var (stencil, s2) := Get32(s1);
    (ClearDepth(depth, stencil), s2)
  }

  function GetDrawDirect(s: seq<byte>): (r: (Command, seq<byte>))
    ensures |r.1| <= |s|
  {
    var (vc, s1) := Get32(s);
    var (ic, s2) := Get32(s1);
    var (fv, s3) := Get32(s2);
    var (fi, s4) := Get32(s3);
    (DrawDirect(vc, ic, fv, fi), s4)
  }

  function GetDrawIndexed(s: seq<byte>): (r: (Command, seq<byte>))
    ensures |r.1| <= |s|
  {
    var (ic, s1) := Get32(s);
    var (inst, s2) := Get32(s1);
    var (fi, s3) := Get32(s2);
    var (vo, s4) := Get32(s3);
    var (fii, s5) := Get32(s4);
    (DrawIndexed(ic, inst, fi, vo, fii), s5)
  }

  function GetDispatch(s: seq<byte>): (r: (Command, seq<byte>))
    ensures |r.1| <= |s|
  {
    var (gx, s1) := Get32(s);
    var (gy, s2) := Get32(s1);
    var (gz, s3) := Get32(s2);
    (Dispatch(gx, gy, gz), s3)
  }

  function GetBarrier(s: seq<byte>): (r: (Command, seq<byte>))
    ensures |r.1| <= |s|
  {
    var (addr, s1) := Get64(s);
    var (before, s2) := Get32(s1);
    var (after, s3) := Get32(s2);
    (Barrier(addr, before, after), s3)
  }

  function GetSetRenderTarget(s: seq<byte>): (r: (Command, seq<byte>))
    ensures |r.1| <= |s|
  {
    var (slot, s1) := Get32(s);
    var (addr, s2) := Get64(s1);
    var (width, s3) := Get32(s2);
    var (height, s4) := Get32(s3);
    var (pitch, s5) := Get32(s4);
    var (format, s6) := Get32(s5);
    (SetRenderTarget(slot, addr, width, height, pitch, format), s6)
  }

  function GetSetDepthTarget(s: seq<byte>): (r: (Command, seq<byte>))
    ensures |r.1| <= |s|
  {
    var (addr, s1) := Get64(s);
    var (width, s2) := Get32(s1);
    var (height, s3) := Get32(s2);
    var (format, s4) := Get32(s3);
    (SetDepthTarget(addr, width, height, format), s4)
  }

  function GetLabel(s: seq<byte>): (r: (seq<byte>, seq<byte>))
    ensures |r.1| <= |s|
  {
    var (len, s1) := Get32(s);
    (Take(s1, len), Drop(s1, len))
  }

  function GetWaitFence(s: seq<byte>): (Command, seq<byte>) {
    var (h, s1) := Get32(s);
    (WaitFence(h), s1)
  }

  function GetSignalFence(s: seq<byte>): (Command, seq<byte>) {
    var (h, s1) := Get32(s);
    (SignalFence(h), s1)
  }

  function GetBeginRenderPass(s: seq<byte>): (Command, seq<byte>) {
    var (text, s1) := GetLabel(s);
    (BeginRenderPass(text), s1)
  }

  function GetPushDebugLabel(s: seq<byte>): (Command, seq<byte>) {
    var (text, s1) := GetLabel(s);
    (PushDebugLabel(text), s1)
  }

  // The switch of the processing loop: the command that follows opcode `op`, and the bytes after it.
  // None for the opcodes that stop the loop.
  function Decode(op: u32, s: seq<byte>): (r: Option<(Command, seq<byte>)>)
    ensures r.Some? ==> |r.value.1| <= |s|
  {
    if op == NOP then Some((Nop, s))
    else if op == CLEAR_COLOR then Some(GetClearColor(s))
    else if op == CLEAR_DEPTH then Some(GetClearDepth(s))
    else if op == DRAW_DIRECT then Some(GetDrawDirect(s))
    else if op == DRAW_INDEXED then Some(GetDrawIndexed(s))
    else if op == DISPATCH then Some(GetDispatch(s))
    else if op == BARRIER then Some(GetBarrier(s))
    else if op == WAIT_FENCE then Some(GetWaitFence(s))
    else if op == SIGNAL_FENCE then Some(GetSignalFence(s))
    else if op == BEGIN_RENDER_PASS then Some(GetBeginRenderPass(s))
    else if op == END_RENDER_PASS then Some((EndRenderPass, s))
    else if op == PUSH_DEBUG_LABEL then Some(GetPushDebugLabel(s))
    else if op == POP_DEBUG_LABEL then Some((PopDebugLabel, s))
    else if op == SET_VIEWPORT then Some((SetViewport(Take(s, VIEWPORT_SIZE)), Drop(s, VIEWPORT_SIZE)))
    else if op == SET_SCISSOR then Some((SetScissor(Take(s, SCISSOR_SIZE)), Drop(s, SCISSOR_SIZE)))
    else if op == SET_RENDER_TARGET then Some(GetSetRenderTarget(s))
    else if op == SET_DEPTH_TARGET then Some(GetSetDepthTarget(s))
    else None
  }

  // What the loop makes of a buffer, and whether it stopped at an opcode it does not know.
  datatype Parse = Parse(commands: seq<Command>, unknown: bool)

  function DecodeAll(s: seq<byte>): Parse
    decreases |s|
  {
    if |s| < 4 then Parse([], false)
    else
      var (op, s1) := Get32(s);
      match Decode(op, s1)
      case None => Parse([], op != END)
      case Some((c, s2)) =>
        var more := DecodeAll(s2);
        Parse([c] + more.commands, more.unknown)
  }

  // ----- round trip -----

  // A label as the builder stores it: its length modulo 2^32.
  function Stored(c: Command): Command {
    match c
    case BeginRenderPass(text) => BeginRenderPass(text[..|text| % U32])
    case PushDebugLabel(text) => PushDebugLabel(text[..|text| % U32])
    case _ => c
  }

  function StoredAll(cmds: seq<Command>): (r: seq<Command>)
    ensures |r| == |cmds|
  {
    if cmds == [] then [] else [Stored(cmds[0])] + StoredAll(cmds[1..])
  }

  lemma TakeDrop(a: seq<byte>, b: seq<byte>)
    ensures Take(a + b, |a|) == a && Drop(a + b, |a|) == b
  {
    PieceRead(a, b);
  }

  lemma LabelRead(text: seq<byte>, rest: seq<byte>)
    ensures GetLabel(EncodeStr(text) + rest) == (text[..|text| % U32], rest)
  {
    var len := |text| % U32;
    Assoc(Le(len, SIZE32), text[..len], rest);
    GetPut32(len, text[..len] + rest);
    TakeDrop(text[..len], rest);
  }

  lemma ClearColorRead(c: Command, rest: seq<byte>)
    requires c.ClearColor?
    ensures GetClearColor(Payload(c, rest)) == (c, rest)
  {
    var s4 := Put32(c.a, rest);
    var s3 := Put32(c.b, s4);
    var s2 := Put32(c.g, s3);
    var s1 := Put32(c.r, s2);
    GetPut32(c.slot, s1);
    GetPut32(c.r, s2);
    GetPut32(c.g, s3);
    GetPut32(c.b, s4);
    GetPut32(c.a, rest);
  }

  lemma ClearDepthRead(c: Command, rest: seq<byte>)
    requires c.ClearDepth?
    ensures GetClearDepth(Payload(c, rest)) == (c, rest)
  {
    var s1 := Put32(c.stencil, rest);
    GetPut32(c.depth, s1);
    GetPut32(c.stencil, rest);
  }

  lemma DrawDirectRead(c: Command, rest: seq<byte>)
    requires c.DrawDirect?
    ensures GetDrawDirect(Payload(c, rest)) == (c, rest)
  {
    var s3 := Put32(c.firstInstance, rest);
    var s2 := Put32(c.firstVertex, s3);
    var s1 := Put32(c.instances, s2);
    GetPut32(c.vertexCount, s1);
    GetPut32(c.instances, s2);
    GetPut32(c.firstVertex, s3);
    GetPut32(c.firstInstance, rest);
  }

  lemma DrawIndexedRead(c: Command, rest: seq<byte>)
    requires c.DrawIndexed?
    ensures GetDrawIndexed(Payload(c, rest)) == (c, rest)
  {
    var s4 := Put32(c.firstInstance, rest);
    var s3 := Put32(c.vertexOffset, s4);
    var s2 := Put32(c.firstIndex, s3);
    var s1 := Put32(c.instances, s2);
    GetPut32(c.indexCount, s1);
    GetPut32(c.instances, s2);
    GetPut32(c.firstIndex, s3);
    GetPut32(c.vertexOffset, s4);
    GetPut32(c.firstInstance, rest);
  }

  lemma DispatchRead(c: Command, rest: seq<byte>)
    requires c.Dispatch?
    ensures GetDispatch(Payload(c, rest)) == (c, rest)
  {
    var s2 := Put32(c.gz, rest);
    var s1 := Put32(c.gy, s2);
    GetPut32(c.gx, s1);
    GetPut32(c.gy, s2);
    GetPut32(c.gz, rest);
  }

  lemma BarrierRead(c: Command, rest: seq<byte>)
    requires c.Barrier?
    ensures GetBarrier(Payload(c, rest)) == (c, rest)
  {
    var s2 := Put32(c.after, rest);
    var s1 := Put32(c.before, s2);
    GetPut64(c.addr, s1);
    GetPut32(c.before, s2);
    GetPut32(c.after, rest);
  }

  lemma SetRenderTargetRead(c: Command, rest: seq<byte>)
    requires c.SetRenderTarget?
    ensures GetSetRenderTarget(Payload(c, rest)) == (c, rest)
  {
    var s5 := Put32(c.format, rest);
    var s4 := Put32(c.pitch, s5);
    var s3 := Put32(c.height, s4);
    var s2 := Put32(c.width, s3);
    var s1 := Put64(c.addr, s2);
    GetPut32(c.slot, s1);
    GetPut64(c.addr, s2);
    GetPut32(c.width, s3);
    GetPut32(c.height, s4);
    GetPut32(c.pitch, s5);
    GetPut32(c.format, rest);
  }

  lemma SetDepthTargetRead(c: Command, rest: seq<byte>)
    requires c.SetDepthTarget?
    ensures GetSetDepthTarget(Payload(c, rest)) == (c, rest)
  {
    var s3 := Put32(c.format, rest);
    var s2 := Put32(c.height, s3);
    var s1 := Put32(c.width, s2);
    GetPut64(c.addr, s1);
    GetPut32(c.width, s2);
    GetPut32(c.height, s3);
    GetPut32(c.format, rest);
  }

  // What the processor reads of a packet of the same kind as c.
  function GetLike(c: Command, s: seq<byte>): (Command, seq<byte>) {
    match c
    case SetRenderTarget(_, _, _, _, _, _) => GetSetRenderTarget(s)
    case SetDepthTarget(_, _, _, _) => GetSetDepthTarget(s)
    case ClearColor(_, _, _, _, _) => GetClearColor(s)
    case ClearDepth(_, _) => GetClearDepth(s)
    case DrawIndexed(_, _, _, _, _) => GetDrawIndexed(s)
    case DrawDirect(_, _, _, _) => GetDrawDirect(s)
    case Dispatch(_, _, _) => GetDispatch(s)
    case Barrier(_, _, _) => GetBarrier(s)
    case SetViewport(_) => (SetViewport(Take(s, VIEWPORT_SIZE)), Drop(s, VIEWPORT_SIZE))
    case SetScissor(_) => (SetScissor(Take(s, SCISSOR_SIZE)), Drop(s, SCISSOR_SIZE))
    case WaitFence(_) => GetWaitFence(s)
    case SignalFence(_) => GetSignalFence(s)
    case BeginRenderPass(_) => GetBeginRenderPass(s)
    case PushDebugLabel(_) => GetPushDebugLabel(s)
    case Nop | EndRenderPass | PopDebugLabel => (c, s)
  }

  lemma DecodeSelects(c: Command, s: seq<byte>)
    ensures Decode(Opcode(c), s) == Some(GetLike(c, s))
  {
  }

  lemma ShortPacketRead(c: Command, rest: seq<byte>)
    requires c.SetViewport? || c.SetScissor? ==> Buildable(c)
    requires c.SetViewport? || c.SetScissor? || c.WaitFence? || c.SignalFence? ||
             c.BeginRenderPass? || c.PushDebugLabel?
    ensures GetLike(c, Payload(c, rest)) == (Stored(c), rest)
  {
    if c.SetViewport? || c.SetScissor? {
      TakeDrop(c.raw, rest);
    } else if c.WaitFence? || c.SignalFence? {
      GetPut32(c.h, rest);
    } else {
      LabelRead(c.text, rest);
    }
  }

  /** Decoding a packet gives back the command and leaves exactly what follows it. */
  lemma PacketDecodes(c: Command, rest: seq<byte>)
    requires Buildable(c)
    ensures Decode(Opcode(c), Payload(c, rest)) == Some((Stored(c), rest))
  {
    DecodeSelects(c, Payload(c, rest));
    match c
    case SetRenderTarget(_, _, _, _, _, _) => SetRenderTargetRead(c, rest);
    case SetDepthTarget(_, _, _, _) => SetDepthTargetRead(c, rest);
    case ClearColor(_, _, _, _, _) => ClearColorRead(c, rest);
    case ClearDepth(_, _) => ClearDepthRead(c, rest);
    case DrawIndexed(_, _, _, _, _) => DrawIndexedRead(c, rest);
    case DrawDirect(_, _, _, _) => DrawDirectRead(c, rest);
    case Dispatch(_, _, _) => DispatchRead(c, rest);
    case Barrier(_, _, _) => BarrierRead(c, rest);
    case Nop | EndRenderPass | PopDebugLabel =>
    case _ => ShortPacketRead(c, rest);
  }

  // How a buffer may end: nothing, or an End packet followed by anything.
  ghost predicate Ending(s: seq<byte>) {
    s == [] || exists after: seq<byte> :: s == Put32(END, after)
  }

  lemma EndingDecodes(s: seq<byte>)
    requires Ending(s)
    ensures DecodeAll(s) == Parse([], false)
  {
    if s != [] {
      var after: seq<byte> :| s == Put32(END, after);
      GetPut32(END, after);
    }
  }

  lemma PacketInFront(c: Command, rest: seq<byte>)
    requires Buildable(c)
    ensures DecodeAll(Encode(c, rest)) == Parse([Stored(c)] + DecodeAll(rest).commands, DecodeAll(rest).unknown)
  {
    PacketDecodes(c, rest);
    GetPut32(Opcode(c), Payload(c, rest));
  }

  lemma {:induction false} PacketsDecode(cmds: seq<Command>, tail: seq<byte>)
    requires forall i :: 0 <= i < |cmds| ==> Buildable(cmds[i])
    ensures DecodeAll(EncodeAll(cmds, tail)) == Before(StoredAll(cmds), DecodeAll(tail))
  {
    if cmds == [] {
      assert [] + DecodeAll(tail).commands == DecodeAll(tail).commands;
    } else {
      PacketsDecode(cmds[1..], tail);
      PacketInFront(cmds[0], EncodeAll(cmds[1..], tail));
      BeforeCons(Stored(cmds[0]), StoredAll(cmds[1..]), DecodeAll(tail));
    }
  }

  function Before(cmds: seq<Command>, p: Parse): Parse {
    Parse(cmds + p.commands, p.unknown)
  }

  lemma BeforeCons(c: Command, cmds: seq<Command>, p: Parse)
    ensures Parse([c] + Before(cmds, p).commands, p.unknown) == Before([c] + cmds, p)
  {
    assert [c] + (cmds + p.commands) == ([c] + cmds) + p.commands;
  }

  /** A list of packets, terminated or not, decodes to the same commands with the same payloads in the same order. */
  lemma RoundTrip(cmds: seq<Command>, ending: seq<byte>)
    requires forall i :: 0 <= i < |cmds| ==> Buildable(cmds[i])
    requires Ending(ending)
    ensures DecodeAll(EncodeAll(cmds, ending)) == Parse(StoredAll(cmds), false)
  {
    PacketsDecode(cmds, ending);
    EndingDecodes(ending);
  }

  predicate KnownOpcode(op: u32) {
    op in {0x0000, 0x0001, 0x0002, 0x0010, 0x0011, 0x0100, 0x0101, 0x0200, 0x0300, 0x0301, 0x0400, 0x0500, 0x0501,
           0x0600, 0x0601, 0x0700, 0x0701, 0xFFFF}
  }

  /** An unknown opcode ends a list as End does, but is reported: what came before it has been decoded. */
  lemma UnknownStops(cmds: seq<Command>, op: u32, after: seq<byte>)
    requires forall i :: 0 <= i < |cmds| ==> Buildable(cmds[i])
    requires !KnownOpcode(op)
    ensures DecodeAll(EncodeAll(cmds, Put32(op, after))) == Parse(StoredAll(cmds), true)
  {
    PacketsDecode(cmds, Put32(op, after));
    GetPut32(op, after);
  }

  /** The bytes of every packet, field by field. */
  lemma PacketBytes(c: Command)
    ensures Encode(c, []) == match c
      case Nop => Le(0x0000, 4) + []
      case SetRenderTarget(slot, addr, width, height, pitch, format) =>
        Le(0x0001, 4) + (Le(slot, 4) + (Le(addr, 8) + (Le(width, 4) + (Le(height, 4) + (Le(pitch, 4) +
          (Le(format, 4) + []))))))
      case SetDepthTarget(addr, width, height, format) =>
        Le(0x0002, 4) + (Le(addr, 8) + (Le(width, 4) + (Le(height, 4) + (Le(format, 4) + []))))
      case ClearColor(slot, r, g, b, a) =>
        Le(0x0010, 4) + (Le(slot, 4) + (Le(r, 4) + (Le(g, 4) + (Le(b, 4) + (Le(a, 4) + [])))))
      case ClearDepth(depth, stencil) => Le(0x0011, 4) + (Le(depth, 4) + (Le(stencil, 4) + []))
      case DrawIndexed(indexCount, instances, firstIndex, vertexOffset, firstInstance) =>
        Le(0x0100, 4) + (Le(indexCount, 4) + (Le(instances, 4) + (Le(firstIndex, 4) + (Le(vertexOffset, 4) +
          (Le(firstInstance, 4) + [])))))
      case DrawDirect(vertexCount, instances, firstVertex, firstInstance) =>
        Le(0x0101, 4) + (Le(vertexCount, 4) + (Le(instances, 4) + (Le(firstVertex, 4) + (Le(firstInstance, 4) + []))))
      case Dispatch(gx, gy, gz) => Le(0x0200, 4) + (Le(gx, 4) + (Le(gy, 4) + (Le(gz, 4) + [])))
      case SetViewport(raw) => Le(0x0300, 4) + (raw + [])
      case SetScissor(raw) => Le(0x0301, 4) + (raw + [])
      case Barrier(addr, before, after) => Le(0x0400, 4) + (Le(addr, 8) + (Le(before, 4) + (Le(after, 4) + [])))
      case WaitFence(h) => Le(0x0500, 4) + (Le(h, 4) + [])
      case SignalFence(h) => Le(0x0501, 4) + (Le(h, 4) + [])
      case BeginRenderPass(text) =>
        Le(0x0600, 4) + ((Le(|text| % 0x1_0000_0000, 4) + text[..|text| % 0x1_0000_0000]) + [])
      case EndRenderPass => Le(0x0601, 4) + []
      case PushDebugLabel(text) =>
        Le(0x0700, 4) + ((Le(|text| % 0x1_0000_0000, 4) + text[..|text| % 0x1_0000_0000]) + [])
      case PopDebugLabel => Le(0x0701, 4) + []
  {
  }

  /** Labels shorter than 2^32 characters come back whole. */
  lemma {:induction false} ShortLabelsAreKept(cmds: seq<Command>)
    requires forall c :: c in cmds && c.BeginRenderPass? ==> |c.text| < U32
    requires forall c :: c in cmds && c.PushDebugLabel? ==> |c.text| < U32
    ensures StoredAll(cmds) == cmds
  {
    if cmds != [] {
      ShortLabelsAreKept(cmds[1..]);
      assert Stored(cmds[0]) == cmds[0];
    }
  }

  /** On arbitrary bytes: at most one command for every four bytes. */
  lemma {:induction false} CountBound(s: seq<byte>)
    ensures 4 * |DecodeAll(s).commands| <= |s|
    decreases |s|
  {
    if |s| >= 4 {
      var (op, s1) := Get32(s);
      var next := Decode(op, s1);
      if next.Some? { CountBound(next.value.1); }
    }
  }

  // ----- the processing loop -----

  // The calls into the GPU module; the fields of a barrier and the stencil value are narrowed to bytes.
  datatype GpuCall =
    | CallClearTarget(slot: u32, r: u32, g: u32, b: u32, a: u32)
    | CallClearDepth(depth: u32, stencil: byte)
    | CallBarrier(addr: u64, before: byte, after: byte)
    | CallWaitFence(h: u32)
    | CallSignalFence(h: u32)
    | CallSetTarget(slot: u32, addr: u64, width: u32, height: u32, pitch: u32, format: u32)
    | CallSetDepth(addr: u64, width: u32, height: u32, format: u32)

  // Without a backend the clears are dropped.
  function Effect(c: Command, backend: bool): seq<GpuCall> {
    match c
    case ClearColor(slot, r, g, b, a) => if backend then [CallClearTarget(slot, r, g, b, a)] else []
    case ClearDepth(depth, stencil) => if backend then [CallClearDepth(depth, stencil % 256)] else []
    case Barrier(addr, before, after) => [CallBarrier(addr, before % 256, after % 256)]
    case WaitFence(h) => [CallWaitFence(h)]
    case SignalFence(h) => [CallSignalFence(h)]
    case SetRenderTarget(slot, addr, width, height, pitch, format) =>
      [CallSetTarget(slot, addr, width, height, pitch, format)]
    case SetDepthTarget(addr, width, height, format) => [CallSetDepth(addr, width, height, format)]
    case _ => []
  }

  datatype Stats = Stats(
    lists: nat, commands: nat, draws: nat, dispatches: nat, barriers: nat, passes: nat, unknown: nat)

  function Tally(st: Stats, c: Command): Stats {
    if c.DrawDirect? || c.DrawIndexed? then st.(draws := st.draws + 1)
    else if c.Dispatch? then st.(dispatches := st.dispatches + 1)
    else if c.Barrier? then st.(barriers := st.barriers + 1)
    else if c.BeginRenderPass? then st.(passes := st.passes + 1)
    else st
  }

  // What a processor has done so far: its counters and its calls.
  datatype Log = Log(stats: Stats, calls: seq<GpuCall>)

  function Perform(log: Log, c: Command, backend: bool): Log {
    Log(Tally(log.stats, c), log.calls + Effect(c, backend))
  }

  function PerformAll(log: Log, cmds: seq<Command>, backend: bool): Log
    decreases |cmds|
  {
    if cmds == [] then log else PerformAll(Perform(log, cmds[0], backend), cmds[1..], backend)
  }

  function Finish(log: Log, count: nat, unknown: bool): Log {
    var st := log.stats;
    log.(stats := st.(lists := st.lists + 1, commands := st.commands + count,
                      unknown := st.unknown + if unknown then 1 else 0))
  }

  // ----- what the commands do, call by call and counter by counter -----

  // The commands that make a call.
  predicate Calls(c: Command, backend: bool) {
    c.Barrier? || c.WaitFence? || c.SignalFence? || c.SetRenderTarget? || c.SetDepthTarget? ||
    (backend && (c.ClearColor? || c.ClearDepth?))
  }

  /** The call a command makes, field by field. */
  predicate Answers(call: GpuCall, c: Command) {
    match call
    case CallClearTarget(slot, r, g, b, a) =>
      c.ClearColor? && slot == c.slot && r == c.r && g == c.g && b == c.b && a == c.a
    case CallClearDepth(depth, stencil) => c.ClearDepth? && depth == c.depth && stencil == c.stencil % 256
    case CallBarrier(addr, before, after) =>
      c.Barrier? && addr == c.addr && before == c.before % 256 && after == c.after % 256
    case CallWaitFence(h) => c.WaitFence? && h == c.h
    case CallSignalFence(h) => c.SignalFence? && h == c.h
    case CallSetTarget(slot, addr, width, height, pitch, format) =>
      c.SetRenderTarget? && slot == c.slot && addr == c.addr && width == c.width && height == c.height &&
      pitch == c.pitch && format == c.format
    case CallSetDepth(addr, width, height, format) =>
      c.SetDepthTarget? && addr == c.addr && width == c.width && height == c.height && format == c.format
  }

  // Where in the list the commands that make a call are.
  function CallingAt(cmds: seq<Command>, backend: bool): (at: seq<nat>)
    ensures forall k :: 0 <= k < |at| ==> at[k] < |cmds|
  {
    if cmds == [] then []
    else
      var last := |cmds| - 1;
      var at := CallingAt(cmds[..last], backend);
      if Calls(cmds[last], backend) then at + [last] else at
  }

  /** In order, and exactly the places of the commands that make a call. */
  lemma {:induction false} CallingAtMeans(cmds: seq<Command>, backend: bool)
    ensures var at := CallingAt(cmds, backend);
      && (forall j, k :: 0 <= j < k < |at| ==> at[j] < at[k])
      && (forall i: nat :: i in at <==> i < |cmds| && Calls(cmds[i], backend))
    decreases |cmds|
  {
    if cmds != [] {
      var last := |cmds| - 1;
      CallingAtMeans(cmds[..last], backend);
      assert forall i: nat :: i < last ==> cmds[..last][i] == cmds[i];
    }
  }

  function CountOf(cmds: seq<Command>, kind: Command -> bool): nat {
    if cmds == [] then 0 else CountOf(cmds[..|cmds| - 1], kind) + if kind(cmds[|cmds| - 1]) then 1 else 0
  }

  /** The calls made between two logs: the k-th new one comes from the k-th command that makes a call. */
  ghost predicate CallsMade(before: seq<GpuCall>, after: seq<GpuCall>, cmds: seq<Command>, backend: bool) {
    var at := CallingAt(cmds, backend);
    && |after| == |before| + |at| && after[..|before|] == before
    && forall k :: 0 <= k < |at| ==> Answers(after[|before| + k], cmds[at[k]])
  }

  /** The counters that commands raise, each by the number of commands of its kind; the others are as before. */
  ghost predicate Counted(before: Stats, after: Stats, cmds: seq<Command>) {
    && after.draws == before.draws + CountOf(cmds, (c: Command) => c.DrawDirect? || c.DrawIndexed?)
    && after.dispatches == before.dispatches + CountOf(cmds, (c: Command) => c.Dispatch?)
    && after.barriers == before.barriers + CountOf(cmds, (c: Command) => c.Barrier?)
    && after.passes == before.passes + CountOf(cmds, (c: Command) => c.BeginRenderPass?)
    && after.lists == before.lists && after.commands == before.commands && after.unknown == before.unknown
  }

  /** One command: its one call, if it makes one, and its one counter. */
  lemma OneCommand(log: Log, c: Command, backend: bool)
    ensures var after := Perform(log, c, backend);
      && (if Calls(c, backend)
          then |after.calls| == |log.calls| + 1 && after.calls[..|log.calls|] == log.calls &&
               Answers(after.calls[|log.calls|], c)
          else after.calls == log.calls)
      && after.stats.draws == log.stats.draws + (if c.DrawDirect? || c.DrawIndexed? then 1 else 0)
      && after.stats.dispatches == log.stats.dispatches + (if c.Dispatch? then 1 else 0)
      && after.stats.barriers == log.stats.barriers + (if c.Barrier? then 1 else 0)
      && after.stats.passes == log.stats.passes + (if c.BeginRenderPass? then 1 else 0)
      && after.stats.lists == log.stats.lists && after.stats.commands == log.stats.commands
      && after.stats.unknown == log.stats.unknown
  {
  }

  lemma {:induction false} PerformSnoc(log: Log, cmds: seq<Command>, c: Command, backend: bool)
    ensures PerformAll(log, cmds + [c], backend) == Perform(PerformAll(log, cmds, backend), c, backend)
    decreases |cmds|
  {
    if cmds == [] {
      assert [] + [c] == [c];
      assert PerformAll(log, [c], backend) == PerformAll(Perform(log, c, backend), [c][1..], backend);
    } else {
      assert (cmds + [c])[1..] == cmds[1..] + [c];
      PerformSnoc(Perform(log, cmds[0], backend), cmds[1..], c, backend);
    }
  }

  lemma CallsSnoc(before: seq<GpuCall>, mid: Log, cmds: seq<Command>, backend: bool)
    requires cmds != [] && CallsMade(before, mid.calls, cmds[..|cmds| - 1], backend)
    ensures CallsMade(before, Perform(mid, cmds[|cmds| - 1], backend).calls, cmds, backend)
  {
    OneCommand(mid, cmds[|cmds| - 1], backend);
  }

  lemma CountsSnoc(before: Stats, mid: Log, cmds: seq<Command>, backend: bool)
    requires cmds != [] && Counted(before, mid.stats, cmds[..|cmds| - 1])
    ensures Counted(before, Perform(mid, cmds[|cmds| - 1], backend).stats, cmds)
  {
    OneCommand(mid, cmds[|cmds| - 1], backend);
  }

  /** A list of commands makes its calls in order and raises its counters, and does nothing else. */
  lemma {:induction false} ListOfCommands(log: Log, cmds: seq<Command>, backend: bool)
    ensures var after := PerformAll(log, cmds, backend);
      CallsMade(log.calls, after.calls, cmds, backend) && Counted(log.stats, after.stats, cmds)
    decreases |cmds|
  {
    if cmds != [] {
      var n := |cmds| - 1;
      ListOfCommands(log, cmds[..n], backend);
      assert cmds == cmds[..n] + [cmds[n]];
      PerformSnoc(log, cmds[..n], cmds[n], backend);
      var mid := PerformAll(log, cmds[..n], backend);
      CallsSnoc(log.calls, mid, cmds, backend);
      CountsSnoc(log.stats, mid, cmds, backend);
    }
  }

  // What a processed list leaves, without the counts of the loop itself.
  ghost predicate Worked(before: Log, after: Log, cmds: seq<Command>, backend: bool, unknown: bool) {
    && CallsMade(before.calls, after.calls, cmds, backend)
    && Counted(before.stats, after.stats.(
         lists := before.stats.lists, commands := before.stats.commands, unknown := before.stats.unknown), cmds)
    && after.stats.lists == before.stats.lists + 1
    && after.stats.commands == before.stats.commands + |cmds|
    && after.stats.unknown == before.stats.unknown + if unknown then 1 else 0
  }

  lemma FinishWorked(log: Log, cmds: seq<Command>, backend: bool, unknown: bool)
    ensures Worked(log, Finish(PerformAll(log, cmds, backend), |cmds|, unknown), cmds, backend, unknown)
  {
    ListOfCommands(log, cmds, backend);
  }

  // The pointers of the loop into the buffer.
  class PacketReader {
    const data: seq<byte>
    var ptr: nat

    constructor (data: seq<byte>)
      ensures this.data == data && ptr == 0 && Left() == data
    {
      this.data := data;
      ptr := 0;
    }

    function Left(): seq<byte>
      reads this
    {
      if ptr <= |data| then data[ptr..] else []
    }

    method Read(n: nat) returns (v: nat)
      requires n > 0
      modifies this
      ensures (v, Left()) == Get(old(Left()), n)
      ensures if old(ptr) + n <= |data| then v == FromLe(data[old(ptr)..old(ptr) + n]) && ptr == old(ptr) + n
              else v == 0 && ptr == old(ptr)
      ensures old(ptr) <= |data| ==> ptr <= |data|
    {
      v := 0;
      if ptr + n <= |data| {
        assert data[ptr..][n..] == data[ptr + n..] && data[ptr..][..n] == data[ptr..ptr + n];
        v := FromLe(data[ptr..ptr + n]);
        ptr := ptr + n;
      }
    }

    method ReadU32() returns (v: u32)
      modifies this
      ensures (v, Left()) == Get32(old(Left()))
      ensures old(ptr) <= |data| ==> ptr <= |data|
    {
      FieldBound(Left());
      v := Read(SIZE32);
    }

    method ReadU64() returns (v: u64)
      modifies this
      ensures (v, Left()) == Get64(old(Left()))
      ensures old(ptr) <= |data| ==> ptr <= |data|
    {
      FieldBound(Left());
      v := Read(SIZE64);
    }

    // `ptr += n`, which may leave the buffer.
    method Skip(n: nat)
      modifies this
      ensures Left() == Drop(old(Left()), n) && ptr == old(ptr) + n
    {
      if ptr + n <= |data| {
        assert data[ptr..][n..] == data[ptr + n..];
      } else if ptr <= |data| {
        assert n > |data[ptr..]|;
      }
      ptr := ptr + n;
    }

    // A length, and at most that many bytes.
    method SkipLabel()
      requires ptr <= |data|
      modifies this
      ensures Left() == GetLabel(old(Left())).1
      ensures ptr <= |data|
    {
      var len := ReadU32();
      var n := if len <= |data| - ptr then len else |data| - ptr;
      Skip(n);
    }
  }

  class Processor {
    const backend: bool
    var log: Log

    constructor (backend: bool)
      ensures this.backend == backend && log == Log(Stats(0, 0, 0, 0, 0, 0, 0), [])
    {
      this.backend := backend;
      log := Log(Stats(0, 0, 0, 0, 0, 0, 0), []);
    }

    method Call(call: GpuCall)
      modifies this
      ensures log == old(log).(calls := old(log.calls) + [call])
    {
      log := log.(calls := log.calls + [call]);
    }

    // Command `d.0` has been carried out, and the reader stands at what follows it.
    ghost predicate Performed(d: (Command, seq<byte>), left: seq<byte>, log0: Log, log1: Log) {
      left == d.1 && log1 == Perform(log0, d.0, backend)
    }

    method ClearColor(r: PacketReader)
      modifies this, r
      ensures Performed(GetClearColor(old(r.Left())), r.Left(), old(log), log)
    {
      var slot := r.ReadU32();
      var red := r.ReadU32();
      var green := r.ReadU32();
      var blue := r.ReadU32();
      var alpha := r.ReadU32();
      if backend { Call(CallClearTarget(slot, red, green, blue, alpha)); }
    }

    method ClearDepth(r: PacketReader)
      modifies this, r
      ensures Performed(GetClearDepth(old(r.Left())), r.Left(), old(log), log)
    {
      var depth := r.ReadU32();
      var stencil := r.ReadU32();
      if backend { Call(CallClearDepth(depth, stencil % 256)); }
    }

    method SetRenderTarget(r: PacketReader)
      modifies this, r
      ensures Performed(GetSetRenderTarget(old(r.Left())), r.Left(), old(log), log)
    {
      var slot := r.ReadU32();
      var addr := r.ReadU64();
      var width := r.ReadU32();
      var height := r.ReadU32();
      var pitch := r.ReadU32();
      var format := r.ReadU32();
      Call(CallSetTarget(slot, addr, width, height, pitch, format));
    }

    method SetDepthTarget(r: PacketReader)
      modifies this, r
      ensures Performed(GetSetDepthTarget(old(r.Left())), r.Left(), old(log), log)
    {
      var addr := r.ReadU64();
      var width := r.ReadU32();
      var height := r.ReadU32();
      var format := r.ReadU32();
      Call(CallSetDepth(addr, width, height, format));
    }

    method DrawDirect(r: PacketReader)
      modifies this, r
      ensures Performed(GetDrawDirect(old(r.Left())), r.Left(), old(log), log)
    {
      var _ := r.ReadU32();
      var _ := r.ReadU32();
      var _ := r.ReadU32();
      var _ := r.ReadU32();
      log := log.(stats := log.stats.(draws := log.stats.draws + 1));
    }

    method DrawIndexed(r: PacketReader)
      modifies this, r
      ensures Performed(GetDrawIndexed(old(r.Left())), r.Left(), old(log), log)
    {
      var _ := r.ReadU32();
      var _ := r.ReadU32();
      var _ := r.ReadU32();
      var _ := r.ReadU32();
      var _ := r.ReadU32();
      log := log.(stats := log.stats.(draws := log.stats.draws + 1));
    }

    method Dispatch(r: PacketReader)
      modifies this, r
      ensures Performed(GetDispatch(old(r.Left())), r.Left(), old(log), log)
    {
      var _ := r.ReadU32();
      var _ := r.ReadU32();
      var _ := r.ReadU32();
      log := log.(stats := log.stats.(dispatches := log.stats.dispatches + 1));
    }

    method Barrier(r: PacketReader)
      modifies this, r
      ensures Performed(GetBarrier(old(r.Left())), r.Left(), old(log), log)
    {
      var addr := r.ReadU64();
      var before := r.ReadU32();
      var after := r.ReadU32();
      Call(CallBarrier(addr, before % 256, after % 256));
      log := log.(stats := log.stats.(barriers := log.stats.barriers + 1));
    }

    method WaitFence(r: PacketReader)
      modifies this, r
      ensures Performed(GetWaitFence(old(r.Left())), r.Left(), old(log), log)
    {
      var h := r.ReadU32();
      Call(CallWaitFence(h));
    }

    method SignalFence(r: PacketReader)
      modifies this, r
      ensures Performed(GetSignalFence(old(r.Left())), r.Left(), old(log), log)
    {
      var h := r.ReadU32();
      Call(CallSignalFence(h));
    }

    method BeginRenderPass(r: PacketReader)
      requires r.ptr <= |r.data|
      modifies this, r
      ensures Performed(GetBeginRenderPass(old(r.Left())), r.Left(), old(log), log)
    {
      r.SkipLabel();
      log := log.(stats := log.stats.(passes := log.stats.passes + 1));
    }

    // Targets, clears, draws, dispatches and barriers.
    method Rendering(op: u32, r: PacketReader) returns (known: bool)
      requires r.ptr <= |r.data|
      modifies this, r
      ensures known <==> op in {
        CLEAR_COLOR, CLEAR_DEPTH, SET_RENDER_TARGET, SET_DEPTH_TARGET, DRAW_DIRECT, DRAW_INDEXED, DISPATCH, BARRIER}
      ensures known ==> Decode(op, old(r.Left())).Some?
      ensures known ==> Performed(Decode(op, old(r.Left())).value, r.Left(), old(log), log)
      ensures !known ==> log == old(log) && r.ptr == old(r.ptr)
    {
      known := true;
      if op == CLEAR_COLOR {
        ClearColor(r);
      } else if op == CLEAR_DEPTH {
        ClearDepth(r);
      } else if op == DRAW_DIRECT {
        DrawDirect(r);
      } else if op == DRAW_INDEXED {
        DrawIndexed(r);
      } else if op == DISPATCH {
        Dispatch(r);
      } else if op == BARRIER {
        Barrier(r);
      } else if op == SET_RENDER_TARGET {
        SetRenderTarget(r);
      } else if op == SET_DEPTH_TARGET {
        SetDepthTarget(r);
      } else {
        known := false;
      }
    }

    // The remaining packets.
    method Control(op: u32, r: PacketReader) returns (known: bool)
      requires r.ptr <= |r.data|
      modifies this, r
      ensures known <==> op in {
        NOP, WAIT_FENCE, SIGNAL_FENCE, BEGIN_RENDER_PASS, END_RENDER_PASS, PUSH_DEBUG_LABEL, POP_DEBUG_LABEL,
        SET_VIEWPORT, SET_SCISSOR}
      ensures known ==> Decode(op, old(r.Left())).Some?
      ensures known ==> Performed(Decode(op, old(r.Left())).value, r.Left(), old(log), log)
      ensures !known ==> log == old(log) && r.ptr == old(r.ptr)
    {
      known := true;
      if op == NOP || op == END_RENDER_PASS || op == POP_DEBUG_LABEL {
      } else if op == WAIT_FENCE {
        WaitFence(r);
      } else if op == SIGNAL_FENCE {
        SignalFence(r);
      } else {
        known := Passing(op, r);
      }
    }

    // The packets with a payload that is passed over.
    method Passing(op: u32, r: PacketReader) returns (known: bool)
      requires r.ptr <= |r.data|
      modifies this, r
      ensures known <==> op in {BEGIN_RENDER_PASS, PUSH_DEBUG_LABEL, SET_VIEWPORT, SET_SCISSOR}
      ensures known ==> Decode(op, old(r.Left())).Some?
      ensures known ==> Performed(Decode(op, old(r.Left())).value, r.Left(), old(log), log)
      ensures !known ==> log == old(log) && r.ptr == old(r.ptr)
    {
      known := true;
      if op == BEGIN_RENDER_PASS {
        BeginRenderPass(r);
      } else if op == PUSH_DEBUG_LABEL {
        r.SkipLabel();
      } else if op == SET_VIEWPORT {
        r.Skip(VIEWPORT_SIZE);
      } else if op == SET_SCISSOR {
        r.Skip(SCISSOR_SIZE);
      } else {
        known := false;
      }
    }

    // One turn of the loop, with a whole opcode left; `unknown` is meant for a turn that stops it.
    method Turn(r: PacketReader) returns (known: bool, unknown: bool)
      requires r.ptr + 4 <= |r.data|
      modifies this, r
      ensures var p := DecodeAll(old(r.Left()));
        && (known <==> p.commands != [])
        && (known ==> DecodeAll(r.Left()) == Parse(p.commands[1..], p.unknown))
        && (known ==> log == Perform(old(log), p.commands[0], backend) && |r.Left()| < |old(r.Left())|)
        && (!known ==> log == old(log) && unknown == p.unknown)
    {
      var op := r.ReadU32();
      known := Rendering(op, r);
      if !known { known := Control(op, r); }
      unknown := op != END;
    }

    /** The loop over a buffer: it performs exactly the commands the buffer decodes to, in order. */
    method Process(data: seq<byte>) returns (count: nat)
      modifies this
      ensures data == [] ==> count == 0 && log == old(log)
      ensures data != [] ==>
        var p := DecodeAll(data);
        count == |p.commands| && Worked(old(log), log, p.commands, backend, p.unknown)
      ensures 4 * count <= |data|
    {
      count := 0;
      CountBound(data);
      if data == [] { return; }
      var r := new PacketReader(data);
      var unknown, known := false, true;
      ghost var p, log0 := DecodeAll(data), log;
      ToDoStart(data, log0, backend);
      while known && r.ptr + 4 <= |data|
        invariant r.data == data && fresh(r)
        invariant known ==> !unknown && ToDo(r.Left(), log, p, count, log0, backend)
        invariant !known ==> Done(log, p, count, unknown, log0, backend)
        decreases known, |r.Left()|
      {
        ghost var left, before := r.Left(), log;
        known, unknown := Turn(r);
        if known {
          ToDoNext(left, r.Left(), before, p, count, log0, backend);
          count := count + 1;
          unknown := false;
        } else {
          ToDoEnd(left, before, p, count, unknown, log0, backend);
        }
      }
      if known { ToDoEnd(r.Left(), log, p, count, unknown, log0, backend); }
      FinishWorked(log0, p.commands, backend, unknown);
      log := Finish(log, count, unknown);
    }
  }

  // `count` commands of the buffer have been performed; the bytes left hold the others.
  ghost predicate ToDo(left: seq<byte>, log: Log, p: Parse, count: nat, log0: Log, backend: bool) {
    && count <= |p.commands| && DecodeAll(left) == Parse(p.commands[count..], p.unknown)
    && PerformAll(log, p.commands[count..], backend) == PerformAll(log0, p.commands, backend)
  }

  ghost predicate Done(log: Log, p: Parse, count: nat, unknown: bool, log0: Log, backend: bool) {
    count == |p.commands| && unknown == p.unknown && log == PerformAll(log0, p.commands, backend)
  }

  lemma ToDoStart(data: seq<byte>, log: Log, backend: bool)
    ensures ToDo(data, log, DecodeAll(data), 0, log, backend)
  {
    var cmds := DecodeAll(data).commands;
    assert cmds[0..] == cmds;
  }

  lemma ToDoNext(left: seq<byte>, next: seq<byte>, log: Log, p: Parse, count: nat, log0: Log, backend: bool)
    requires ToDo(left, log, p, count, log0, backend) && DecodeAll(left).commands != []
    requires DecodeAll(next) == Parse(DecodeAll(left).commands[1..], DecodeAll(left).unknown)
    ensures ToDo(next, Perform(log, DecodeAll(left).commands[0], backend), p, count + 1, log0, backend)
  {
    assert p.commands[count..][1..] == p.commands[count + 1..];
  }

  lemma ToDoEnd(left: seq<byte>, log: Log, p: Parse, count: nat, unknown: bool, log0: Log, backend: bool)
    requires ToDo(left, log, p, count, log0, backend) && DecodeAll(left) == Parse([], unknown)
    ensures Done(log, p, count, unknown, log0, backend)
  {
  }

  // ----- from the builder through the loop -----

  // What the builder's methods can be asked for: a whole viewport or scissor, and narrow fields in bytes.
  predicate Issuable(c: Command) {
    match c
    case ClearDepth(_, stencil) => stencil < 256
    case Barrier(_, before, after) => before < 256 && after < 256
    case _ => Buildable(c)
  }

  lemma PutJoin(v: nat, n: nat, a: seq<byte>, rest: seq<byte>)
    ensures Put(v, n, a) + rest == Put(v, n, a + rest)
  {
    Assoc(Le(v, n), a, rest);
  }

  lemma TargetJoin(c: Command, rest: seq<byte>)
    requires c.SetRenderTarget? || c.SetDepthTarget?
    ensures Payload(c, []) + rest == Payload(c, rest)
  {
    assert [] + rest == rest;
    var p1 := Put32(c.format, []);
    var p2 := if c.SetRenderTarget? then Put32(c.pitch, p1) else p1;
    var p3 := Put32(c.height, p2);
    var p4 := Put32(c.width, p3);
    var p5 := Put64(c.addr, p4);
    PutJoin(c.format, SIZE32, [], rest);
    if c.SetRenderTarget? { PutJoin(c.pitch, SIZE32, p1, rest); }
    PutJoin(c.height, SIZE32, p2, rest);
    PutJoin(c.width, SIZE32, p3, rest);
    PutJoin(c.addr, SIZE64, p4, rest);
    if c.SetRenderTarget? { PutJoin(c.slot, SIZE32, p5, rest); }
  }

  lemma ClearJoin(c: Command, rest: seq<byte>)
    requires c.ClearColor? || c.ClearDepth?
    ensures Payload(c, []) + rest == Payload(c, rest)
  {
    assert [] + rest == rest;
    if c.ClearColor? {
      var p1 := Put32(c.a, []);
      var p2 := Put32(c.b, p1);
      var p3 := Put32(c.g, p2);
      var p4 := Put32(c.r, p3);
      PutJoin(c.a, SIZE32, [], rest); PutJoin(c.b, SIZE32, p1, rest); PutJoin(c.g, SIZE32, p2, rest);
      PutJoin(c.r, SIZE32, p3, rest); PutJoin(c.slot, SIZE32, p4, rest);
    } else {
      PutJoin(c.stencil, SIZE32, [], rest);
      PutJoin(c.depth, SIZE32, Put32(c.stencil, []), rest);
    }
  }

  lemma DrawJoin(c: Command, rest: seq<byte>)
    requires c.DrawIndexed? || c.DrawDirect?
    ensures Payload(c, []) + rest == Payload(c, rest)
  {
    assert [] + rest == rest;
    var p1 := Put32(c.firstInstance, []);
    PutJoin(c.firstInstance, SIZE32, [], rest);
    if c.DrawIndexed? {
      var p2 := Put32(c.vertexOffset, p1);
      var p3 := Put32(c.firstIndex, p2);
      var p4 := Put32(c.instances, p3);
      PutJoin(c.vertexOffset, SIZE32, p1, rest); PutJoin(c.firstIndex, SIZE32, p2, rest);
      PutJoin(c.instances, SIZE32, p3, rest); PutJoin(c.indexCount, SIZE32, p4, rest);
    } else {
      var p2 := Put32(c.firstVertex, p1);
      var p3 := Put32(c.instances, p2);
      PutJoin(c.firstVertex, SIZE32, p1, rest); PutJoin(c.instances, SIZE32, p2, rest);
      PutJoin(c.vertexCount, SIZE32, p3, rest);
    }
  }

  lemma SyncJoin(c: Command, rest: seq<byte>)
    requires c.Dispatch? || c.Barrier? || c.WaitFence? || c.SignalFence?
    ensures Payload(c, []) + rest == Payload(c, rest)
  {
    assert [] + rest == rest;
    match c
    case Dispatch(gx, gy, gz) =>
      var p1 := Put32(gz, []);
      PutJoin(gz, SIZE32, [], rest); PutJoin(gy, SIZE32, p1, rest); PutJoin(gx, SIZE32, Put32(gy, p1), rest);
    case Barrier(addr, before, after) =>
      var p1 := Put32(after, []);
      PutJoin(after, SIZE32, [], rest); PutJoin(before, SIZE32, p1, rest);
      PutJoin(addr, SIZE64, Put32(before, p1), rest);
    case WaitFence(h) => PutJoin(h, SIZE32, [], rest);
    case SignalFence(h) => PutJoin(h, SIZE32, [], rest);
  }

  lemma RawJoin(raw: seq<byte>, rest: seq<byte>)
    ensures (raw + []) + rest == raw + rest
  {
    assert raw + [] == raw;
  }

  /** A packet on its own, followed by more bytes, is the packet in front of those bytes. */
  lemma EncodeJoin(c: Command, rest: seq<byte>)
    ensures Encode(c, []) + rest == Encode(c, rest)
  {
    PutJoin(Opcode(c), SIZE32, Payload(c, []), rest);
    if c.SetRenderTarget? || c.SetDepthTarget? {
      TargetJoin(c, rest);
    } else if c.ClearColor? || c.ClearDepth? {
      ClearJoin(c, rest);
    } else if c.DrawIndexed? || c.DrawDirect? {
      DrawJoin(c, rest);
    } else if c.Dispatch? || c.Barrier? || c.WaitFence? || c.SignalFence? {
      SyncJoin(c, rest);
    } else if c.SetViewport? || c.SetScissor? {
      RawJoin(c.raw, rest);
    } else if c.BeginRenderPass? || c.PushDebugLabel? {
      RawJoin(EncodeStr(c.text), rest);
    } else {
      assert [] + rest == rest;
    }
  }

  // Reading a field and writing it back.
  lemma PutGet32(s: seq<byte>)
    requires |s| >= 4
    ensures var (v, rest) := Get32(s); Put32(v, rest) == s && |rest| == |s| - 4
  {
    FromLeThenLe(s[..4]);
    assert s == s[..4] + s[4..];
  }

  lemma {:induction false} FromLeThenLe(s: seq<byte>)
    ensures Le(FromLe(s), |s|) == s
  {
    if s != [] {
      var b, rest := s[0], s[1..];
      FromLeThenLe(rest);
      assert FromLe(s) % 256 == b && FromLe(s) / 256 == FromLe(rest);
      assert s == [b] + rest;
    }
  }

  lemma AppendStep(buf: seq<byte>, c: Command, cmds: seq<Command>, ending: seq<byte>)
    ensures (buf + Encode(c, [])) + EncodeAll(cmds, ending) == buf + EncodeAll([c] + cmds, ending)
  {
    var rest := EncodeAll(cmds, ending);
    Assoc(buf, Encode(c, []), rest);
    EncodeJoin(c, rest);
    assert ([c] + cmds)[1..] == cmds;
  }

  lemma ViewportUnpacks(raw: seq<byte>)
    requires |raw| == VIEWPORT_SIZE
    ensures var (x, s1) := Get32(raw);
      var (y, s2) := Get32(s1);
      var (width, s3) := Get32(s2);
      var (height, s4) := Get32(s3);
      var (minDepth, s5) := Get32(s4);
      PackViewport(x, y, width, height, minDepth, Get32(s5).0) == raw
  {
    PutGet32(raw);
    var s1 := Get32(raw).1;
    PutGet32(s1);
    var s2 := Get32(s1).1;
    PutGet32(s2);
    var s3 := Get32(s2).1;
    PutGet32(s3);
    var s4 := Get32(s3).1;
    PutGet32(s4);
    PutGet32(Get32(s4).1);
  }

  lemma ScissorUnpacks(raw: seq<byte>)
    requires |raw| == SCISSOR_SIZE
    ensures var (x, s1) := Get32(raw);
      var (y, s2) := Get32(s1);
      var (width, s3) := Get32(s2);
      PackScissor(x, y, width, Get32(s3).0) == raw
  {
    PutGet32(raw);
    var s1 := Get32(raw).1;
    PutGet32(s1);
    var s2 := Get32(s1).1;
    PutGet32(s2);
    PutGet32(Get32(s2).1);
  }

  method IssueViewport(list: CommandList, raw: seq<byte>)
    requires |raw| == VIEWPORT_SIZE
    modifies list
    ensures list.buf == old(list.buf) + Encode(SetViewport(raw), [])
  {
    var (x, s1) := Get32(raw);
    var (y, s2) := Get32(s1);
    var (width, s3) := Get32(s2);
    var (height, s4) := Get32(s3);
    var (minDepth, s5) := Get32(s4);
    ViewportUnpacks(raw);
    list.SetViewport(x, y, width, height, minDepth, Get32(s5).0);
  }

  method IssueScissor(list: CommandList, raw: seq<byte>)
    requires |raw| == SCISSOR_SIZE
    modifies list
    ensures list.buf == old(list.buf) + Encode(SetScissor(raw), [])
  {
    var (x, s1) := Get32(raw);
    var (y, s2) := Get32(s1);
    var (width, s3) := Get32(s2);
    ScissorUnpacks(raw);
    list.SetScissor(x, y, width, Get32(s3).0);
  }

  /** Whichever builder method a command calls for, its packet is what is appended. */
  method Issue(list: CommandList, c: Command)
    requires Issuable(c)
    modifies list
    ensures list.buf == old(list.buf) + Encode(c, [])
  {
    match c {
      case Nop => list.Nop();
      case SetRenderTarget(slot, addr, width, height, pitch, format) =>
        list.SetRenderTarget(slot, addr, width, height, pitch, format);
      case SetDepthTarget(addr, width, height, format) => list.SetDepthTarget(addr, width, height, format);
      case ClearColor(slot, r, g, b, a) => list.ClearColor(slot, r, g, b, a);
      case ClearDepth(depth, stencil) => list.ClearDepth(depth, stencil);
      case DrawIndexed(ic, inst, fi, vo, fii) => list.DrawIndexed(ic, inst, fi, vo, fii);
      case DrawDirect(vc, ic, fv, fi) => list.DrawDirect(vc, ic, fv, fi);
      case Dispatch(gx, gy, gz) => list.Dispatch(gx, gy, gz);
      case SetViewport(raw) => IssueViewport(list, raw);
      case SetScissor(raw) => IssueScissor(list, raw);
      case Barrier(addr, before, after) => list.Barrier(addr, before, after);
      case WaitFence(h) => list.WaitFence(h);
      case SignalFence(h) => list.SignalFence(h);
      case BeginRenderPass(text) => list.BeginRenderPass(text);
      case EndRenderPass => list.EndRenderPass();
      case PushDebugLabel(text) => list.PushDebugLabel(text);
      case PopDebugLabel => list.PopDebugLabel();
    }
  }

  /** Building a list command by command writes the packets one after the other, then End. */
  method Build(cmds: seq<Command>) returns (list: CommandList)
    requires forall i :: 0 <= i < |cmds| ==> Issuable(cmds[i])
    ensures fresh(list) && list.buf == EncodeAll(cmds, Put32(END, []))
  {
    list := new CommandList();
    ghost var ending := Put32(END, []);
    assert [] + EncodeAll(cmds, ending) == EncodeAll(cmds, ending);
    for k := 0 to |cmds|
      invariant fresh(list)
      invariant list.buf + EncodeAll(cmds[k..], ending) == EncodeAll(cmds, ending)
    {
      assert cmds[k..] == [cmds[k]] + cmds[k + 1..];
      AppendStep(list.buf, cmds[k], cmds[k + 1..], ending);
      Issue(list, cmds[k]);
    }
    assert cmds[|cmds|..] == [];
    list.End();
  }

  /** The builder and the loop undo each other: processing what was built performs exactly the commands
      that were issued, in order, and counts them. */
  method BuildThenProcess(cmds: seq<Command>, processor: Processor) returns (count: nat)
    requires forall i :: 0 <= i < |cmds| ==> Issuable(cmds[i])
    modifies processor
    ensures count == |cmds|
    ensures Worked(old(processor.log), processor.log, cmds, processor.backend, false)
  {
    var list := Build(cmds);
    BuiltDecodes(cmds);
    count := processor.Process(list.buf);
    StoredWorks(old(processor.log), processor.log, cmds, processor.backend);
  }

  lemma {:induction false} StoredAt(cmds: seq<Command>, i: nat)
    requires i < |cmds|
    ensures StoredAll(cmds)[i] == Stored(cmds[i])
    decreases i
  {
    if i > 0 { StoredAt(cmds[1..], i - 1); }
  }

  lemma CallingAtLast(cmds: seq<Command>, backend: bool)
    requires cmds != []
    ensures var n := |cmds| - 1;
      CallingAt(cmds, backend) ==
      if Calls(cmds[n], backend) then CallingAt(cmds[..n], backend) + [n] else CallingAt(cmds[..n], backend)
  {
  }

  lemma {:induction false} CallingSame(a: seq<Command>, b: seq<Command>, backend: bool)
    requires |a| == |b| && forall i :: 0 <= i < |a| ==> Calls(a[i], backend) == Calls(b[i], backend)
    ensures CallingAt(a, backend) == CallingAt(b, backend)
    decreases |a|
  {
    if a != [] {
      CallingSame(a[..|a| - 1], b[..|a| - 1], backend);
      CallingAtLast(a, backend);
      CallingAtLast(b, backend);
    }
  }

  lemma {:induction false} CountSame(a: seq<Command>, b: seq<Command>, kind: Command -> bool)
    requires |a| == |b| && forall i :: 0 <= i < |a| ==> kind(a[i]) == kind(b[i])
    ensures CountOf(a, kind) == CountOf(b, kind)
    decreases |a|
  {
    if a != [] { CountSame(a[..|a| - 1], b[..|a| - 1], kind); }
  }

  // Cutting the labels changes neither who calls nor what is counted.
  lemma StoredCalls(cmds: seq<Command>, backend: bool)
    ensures CallingAt(StoredAll(cmds), backend) == CallingAt(cmds, backend)
  {
    forall i: nat | i < |cmds|
      ensures Calls(StoredAll(cmds)[i], backend) == Calls(cmds[i], backend)
    {
      StoredAt(cmds, i);
    }
    CallingSame(StoredAll(cmds), cmds, backend);
  }

  lemma StoredCounts(cmds: seq<Command>, kind: Command -> bool)
    requires forall c :: kind(Stored(c)) == kind(c)
    ensures CountOf(StoredAll(cmds), kind) == CountOf(cmds, kind)
  {
    forall i: nat | i < |cmds|
      ensures kind(StoredAll(cmds)[i]) == kind(cmds[i])
    {
      StoredAt(cmds, i);
    }
    CountSame(StoredAll(cmds), cmds, kind);
  }

  lemma StoredCallsMade(before: seq<GpuCall>, after: seq<GpuCall>, cmds: seq<Command>, backend: bool)
    requires CallsMade(before, after, StoredAll(cmds), backend)
    ensures CallsMade(before, after, cmds, backend)
  {
    StoredCalls(cmds, backend);
    var at := CallingAt(cmds, backend);
    forall k | 0 <= k < |at|
      ensures Answers(after[|before| + k], cmds[at[k]])
    {
      StoredAt(cmds, at[k]);
    }
  }

  lemma StoredCounted(before: Stats, after: Stats, cmds: seq<Command>)
    requires Counted(before, after, StoredAll(cmds))
    ensures Counted(before, after, cmds)
  {
    StoredCounts(cmds, (c: Command) => c.DrawDirect? || c.DrawIndexed?);
    StoredCounts(cmds, (c: Command) => c.Dispatch?);
    StoredCounts(cmds, (c: Command) => c.Barrier?);
    StoredCounts(cmds, (c: Command) => c.BeginRenderPass?);
  }

  lemma StoredWorks(before: Log, after: Log, cmds: seq<Command>, backend: bool)
    requires Worked(before, after, StoredAll(cmds), backend, false)
    ensures Worked(before, after, cmds, backend, false)
  {
    StoredCallsMade(before.calls, after.calls, cmds, backend);
    StoredCounted(before.stats, after.stats.(
      lists := before.stats.lists, commands := before.stats.commands, unknown := before.stats.unknown), cmds);
  }

  lemma BuiltDecodes(cmds: seq<Command>)
    requires forall i :: 0 <= i < |cmds| ==> Issuable(cmds[i])
    ensures var data := EncodeAll(cmds, Put32(END, []));
      data != [] && DecodeAll(data) == Parse(StoredAll(cmds), false)
  {
    assert Ending(Put32(END, []));
    RoundTrip(cmds, Put32(END, []));
    assert |EncodeAll(cmds, Put32(END, []))| >= 4;
  }
}
