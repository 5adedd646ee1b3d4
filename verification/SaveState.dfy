/** Save states: the processor and GPU blobs, the file, and its validation on load. */
module SaveState {
  import opened Options
  import opened Words
  import opened Blobs
  import opened MemoryMap
  import opened HostMemory
  import opened Crc32

  // ----- processor context -----

  datatype Context = Context(gpr: seq<nat>, rip: nat, rflags: nat, cs: nat, ss: nat, xmm: seq<seq<byte>>)

  ghost predicate WellSized(c: Context) {
    && |c.gpr| == 16 && |c.xmm| == 16
    && (forall v :: v in c.gpr ==> v < U64) && (forall x :: x in c.xmm ==> |x| == LANE)
    && c.rip < U64 && c.rflags < U64 && c.cs < U64 && c.ss < U64
  }

  // Bytes of a vector register; numbers of general, system and vector registers.
  const LANE: nat := 16
  const GPRS: nat := 16
  const SYSTEM: nat := 4
  const LANES: nat := 16

  function EncodeWords(ws: seq<nat>): (s: seq<byte>)
    ensures |s| == 8 * |ws|
  {
    if ws == [] then [] else Le(ws[0], SIZE64) + EncodeWords(ws[1..])
  }

  function EncodeLanes(xs: seq<seq<byte>>): seq<byte> {
    if xs == [] then [] else xs[0] + EncodeLanes(xs[1..])
  }

  function EncodeCpu(c: Context): seq<byte> {
    EncodeWords(c.gpr) + (EncodeWords([c.rip, c.rflags, c.cs, c.ss]) + EncodeLanes(c.xmm))
  }

  function DecodeWords(s: seq<byte>, n: nat): (d: Option<(seq<nat>, seq<byte>)>)
    ensures d.Some? <==> |s| >= 8 * n
    ensures d.Some? ==> |d.value.0| == n && |d.value.1| == |s| - 8 * n
    decreases n
  {
    if n == 0 then Some(([], s)) else
    var (w, rest) :- ReadField(s, SIZE64);
    var (ws, end) :- DecodeWords(rest, n - 1);
    Some(([w] + ws, end))
  }

  function DecodeLanes(s: seq<byte>, n: nat): (d: Option<(seq<seq<byte>>, seq<byte>)>)
    ensures d.Some? <==> |s| >= 16 * n
    ensures d.Some? ==> |d.value.0| == n && |d.value.1| == |s| - 16 * n
    decreases n
  {
    if n == 0 then Some(([], s)) else
    var (x, rest) :- ReadBytes(s, LANE);
    var (xs, end) :- DecodeLanes(rest, n - 1);
    Some(([x] + xs, end))
  }

  function DecodeCpu(s: seq<byte>): (d: Option<(Context, seq<byte>)>)
    ensures d.Some? <==> |s| >= 416
  {
    var (gpr, s1) :- DecodeWords(s, GPRS);
    var (sys, s2) :- DecodeWords(s1, SYSTEM);
    var (xmm, s3) :- DecodeLanes(s2, LANES);
    Some((Context(gpr, sys[0], sys[1], sys[2], sys[3], xmm), s3))
  }

  lemma WordRead(w: u64, more: seq<byte>, ws: seq<nat>, rest: seq<byte>)
    requires DecodeWords(more, |ws|) == Some((ws, rest))
    ensures DecodeWords(Le(w, SIZE64) + more, |ws| + 1) == Some(([w] + ws, rest))
  {
    FieldRead(w, SIZE64, more);
  }

  lemma EncodeWordsCons(ws: seq<nat>, rest: seq<byte>)
    requires ws != []
    ensures EncodeWords(ws) + rest == Le(ws[0], SIZE64) + (EncodeWords(ws[1..]) + rest)
  {
    Assoc(Le(ws[0], SIZE64), EncodeWords(ws[1..]), rest);
  }

  lemma {:induction false} WordsRead(ws: seq<nat>, rest: seq<byte>)
    requires forall w :: w in ws ==> w < U64
    ensures DecodeWords(EncodeWords(ws) + rest, |ws|) == Some((ws, rest))
    decreases |ws|
  {
    if ws == [] {
      assert EncodeWords(ws) + rest == rest;
    } else {
      var w, tail := ws[0], ws[1..];
      assert w in ws && forall v :: v in tail ==> v in ws;
      WordsRead(tail, rest);
      EncodeWordsCons(ws, rest);
      WordRead(w, EncodeWords(tail) + rest, tail, rest);
      assert ws == [w] + tail;
    }
  }

  lemma {:induction false} LanesRead(xs: seq<seq<byte>>, rest: seq<byte>)
    requires forall x :: x in xs ==> |x| == LANE
    ensures DecodeLanes(EncodeLanes(xs) + rest, |xs|) == Some((xs, rest))
    ensures |EncodeLanes(xs)| == 16 * |xs|
    decreases |xs|
  {
    if xs == [] {
      assert EncodeLanes(xs) + rest == rest;
    } else {
      Assoc(xs[0], EncodeLanes(xs[1..]), rest);
      PieceRead(xs[0], EncodeLanes(xs[1..]) + rest);
      LanesRead(xs[1..], rest);
      assert xs == [xs[0]] + xs[1..];
    }
  }

  // The pieces of the processor blob, read one after the other.
  lemma PiecesRead(g: seq<nat>, w: seq<nat>, x: seq<seq<byte>>, rest: seq<byte>)
    requires |g| == GPRS && |w| == SYSTEM && |x| == LANES
    requires forall v :: v in g ==> v < U64
    requires forall v :: v in w ==> v < U64
    requires forall l :: l in x ==> |l| == LANE
    ensures DecodeCpu((EncodeWords(g) + (EncodeWords(w) + EncodeLanes(x))) + rest) ==
      Some((Context(g, w[0], w[1], w[2], w[3], x), rest))
    ensures |EncodeLanes(x)| == 16 * LANES
  {
    Assoc(EncodeWords(w), EncodeLanes(x), rest);
    Assoc(EncodeWords(g), EncodeWords(w) + EncodeLanes(x), rest);
    WordsRead(g, EncodeWords(w) + (EncodeLanes(x) + rest));
    WordsRead(w, EncodeLanes(x) + rest);
    LanesRead(x, rest);
  }

  /** The processor blob is 416 bytes, gives back every register and is used up. */
  lemma CpuRead(c: Context, rest: seq<byte>)
    requires WellSized(c)
    ensures DecodeCpu(EncodeCpu(c) + rest) == Some((c, rest)) && |EncodeCpu(c)| == 416
  {
    PiecesRead(c.gpr, [c.rip, c.rflags, c.cs, c.ss], c.xmm, rest);
  }

  // ----- GPU statistics: read back and discarded -----

  datatype GpuStats = GpuStats(submits: u64, flips: u64, barriers: u64, fencesSignaled: u64, activeQueues: u32)

  function EncodeGpu(g: GpuStats): (s: seq<byte>)
    ensures |s| == 36
  {
    EncodeWords([g.submits, g.flips, g.barriers, g.fencesSignaled]) + Le(g.activeQueues, SIZE32)
  }

  function DecodeGpu(s: seq<byte>): (d: Option<(GpuStats, seq<byte>)>)
    ensures d.Some? <==> |s| >= 36
  {
    var (ws, rest) :- DecodeWords(s, SYSTEM);
    var (q, end) :- ReadField(rest, SIZE32);
    Some((GpuStats(ws[0] % U64, ws[1] % U64, ws[2] % U64, ws[3] % U64, q % U32), end))
  }

  // ----- the file -----

  const MAGIC: seq<byte> := [67, 104, 117, 99, 107, 83, 116, 97]  // "ChuckSta"
  const HEADER: nat := 424

  datatype Header = Header(
    magic: seq<byte>, version: nat, pad: seq<byte>, timestamp: nat, gameName: seq<byte>, description: seq<byte>,
    cpuStateSize: nat, memoryMapSize: nat, gpuStateSize: nat, checksum: nat)

  ghost predicate HeaderFits(h: Header) {
    && |h.magic| == 8 && |h.pad| == 4 && |h.gameName| == GAME_NAME && |h.description| == DESCRIPTION
    && h.version < U32 && h.timestamp < U64
    && h.cpuStateSize < U32 && h.memoryMapSize < U32 && h.gpuStateSize < U32 && h.checksum < U32
  }

  const GAME_NAME: nat := 128
  const DESCRIPTION: nat := 256
  const PAD: nat := 4
  const MAGIC_SIZE: nat := 8

  function EncodeSizes(h: Header): seq<byte> {
    Le(h.cpuStateSize, SIZE32) + (Le(h.memoryMapSize, SIZE32) + (Le(h.gpuStateSize, SIZE32) + Le(h.checksum, SIZE32)))
  }

  function EncodeFront(h: Header): seq<byte> {
    h.magic + (Le(h.version, SIZE32) + (h.pad + (Le(h.timestamp, SIZE64) + (h.gameName + h.description))))
  }

  function EncodeHeader(h: Header): seq<byte> {
    EncodeFront(h) + EncodeSizes(h)
  }

  datatype Front = Front(
    magic: seq<byte>, version: nat, pad: seq<byte>, timestamp: nat, gameName: seq<byte>, description: seq<byte>)
  datatype Sizes = Sizes(cpuStateSize: nat, memoryMapSize: nat, gpuStateSize: nat, checksum: nat)

  function DecodeFront(s: seq<byte>): (d: Option<(Front, seq<byte>)>)
    ensures d.Some? <==> |s| >= 408
    ensures d.Some? ==> |d.value.1| == |s| - 408
  {
    var (magic, s1) :- ReadBytes(s, MAGIC_SIZE);
    var (version, s2) :- ReadField(s1, SIZE32);
    var (pad, s3) :- ReadBytes(s2, PAD);
    var (timestamp, s4) :- ReadField(s3, SIZE64);
    var (gameName, s5) :- ReadBytes(s4, GAME_NAME);
    var (description, s6) :- ReadBytes(s5, DESCRIPTION);
    Some((Front(magic, version, pad, timestamp, gameName, description), s6))
  }

  function DecodeSizes(s: seq<byte>): (d: Option<(Sizes, seq<byte>)>)
    ensures d.Some? <==> |s| >= 16
    ensures d.Some? ==> |d.value.1| == |s| - 16
  {
    var (cpu, s1) :- ReadField(s, SIZE32);
    var (mem, s2) :- ReadField(s1, SIZE32);
    var (gpu, s3) :- ReadField(s2, SIZE32);
    var (sum, s4) :- ReadField(s3, SIZE32);
    Some((Sizes(cpu, mem, gpu, sum), s4))
  }

  function ParseHeader(raw: seq<byte>): Header
    requires |raw| == HEADER
  {
    var (f, s1) := DecodeFront(raw).value;
    var (z, s2) := DecodeSizes(s1).value;
    Header(f.magic, f.version, f.pad, f.timestamp, f.gameName, f.description,
      z.cpuStateSize, z.memoryMapSize, z.gpuStateSize, z.checksum)
  }

  lemma FrontRead(h: Header, rest: seq<byte>)
    requires HeaderFits(h)
    ensures DecodeFront(EncodeFront(h) + rest) ==
      Some((Front(h.magic, h.version, h.pad, h.timestamp, h.gameName, h.description), rest))
  {
    var s5 := h.description + rest;
    var s4 := h.gameName + s5;
    var s3 := Le(h.timestamp, SIZE64) + s4;
    var s2 := h.pad + s3;
    var s1 := Le(h.version, SIZE32) + s2;
    Assoc6(h.magic, Le(h.version, SIZE32), h.pad, Le(h.timestamp, SIZE64), h.gameName, h.description, rest);
    PieceRead(h.magic, s1);
    FieldRead(h.version, SIZE32, s2);
    PieceRead(h.pad, s3);
    FieldRead(h.timestamp, SIZE64, s4);
    PieceRead(h.gameName, s5);
    PieceRead(h.description, rest);
  }

  lemma SizesRead(h: Header, rest: seq<byte>)
    requires HeaderFits(h)
    ensures DecodeSizes(EncodeSizes(h) + rest) ==
      Some((Sizes(h.cpuStateSize, h.memoryMapSize, h.gpuStateSize, h.checksum), rest))
  {
    var a, b := Le(h.cpuStateSize, SIZE32), Le(h.memoryMapSize, SIZE32);
    var c, d := Le(h.gpuStateSize, SIZE32), Le(h.checksum, SIZE32);
    Assoc(c, d, rest);
    Assoc(b, c + d, rest);
    Assoc(a, b + (c + d), rest);
    FieldRead(h.cpuStateSize, SIZE32, b + (c + (d + rest)));
    FieldRead(h.memoryMapSize, SIZE32, c + (d + rest));
    FieldRead(h.gpuStateSize, SIZE32, d + rest);
    FieldRead(h.checksum, SIZE32, rest);
  }

  lemma HeaderRead(h: Header)
    requires HeaderFits(h)
    ensures |EncodeHeader(h)| == HEADER && ParseHeader(EncodeHeader(h)) == h
  {
    FrontRead(h, EncodeSizes(h));
    SizesRead(h, []);
    assert EncodeSizes(h) + [] == EncodeSizes(h);
  }

  // ----- what Save writes -----

  // The description keeps 255 characters and is filled up with zeros.
  function Description(text: seq<byte>): (d: seq<byte>)
    ensures |d| == DESCRIPTION
    ensures forall i :: 0 <= i < 256 ==> d[i] == if i < |text| && i < 255 then text[i] else 0
  {
    var n := if |text| < 255 then |text| else 255;
    text[..n] + seq(256 - n, i => 0)
  }

  // The state of the machine at the time of saving; `pad` is what the header's padding holds.
  datatype Snapshot = Snapshot(
    ctx: Context, regions: seq<Region>, host: Host, gpu: GpuStats,
    timestamp: u64, text: seq<byte>, pad: seq<byte>)

  function Payload(s: Snapshot): seq<byte> {
    EncodeCpu(s.ctx) + (EncodeMap(s.regions, s.host.bytes) + EncodeGpu(s.gpu))
  }

  function HeaderOf(s: Snapshot): Header {
    Header(MAGIC, 1, s.pad, s.timestamp, seq(128, i => 0), Description(s.text),
      |EncodeCpu(s.ctx)| % U32, |EncodeMap(s.regions, s.host.bytes)| % U32, |EncodeGpu(s.gpu)| % U32,
      Checksum(Payload(s)))
  }

  function SaveFile(s: Snapshot): seq<byte> {
    EncodeHeader(HeaderOf(s)) + Payload(s)
  }

  // ----- what Load accepts -----

  // AccessFault: the load does not return, because it copied into a page it may not write.
  datatype LoadOutcome =
    | FileNotFound | CorruptFile | VersionMismatch | ChecksumMismatch | MemoryConflict | AccessFault
    | Loaded(ctx: Context, regions: seq<SavedRegion>, host: Host)

  function PayloadSize(h: Header): nat {
    h.cpuStateSize + h.memoryMapSize + h.gpuStateSize
  }

  // What comes of the three sections, restored one after the other.
  function Finish(cpu: Option<(Context, seq<byte>)>, m: MapLoad, gpu: Option<(GpuStats, seq<byte>)>): LoadOutcome {
    if cpu.None? then CorruptFile
    else match m
      case Broken => MemoryConflict
      case Fault => AccessFault
      case Restored(regions, _, host) => if gpu.None? then CorruptFile else Loaded(cpu.value.0, regions, host)
  }

  function LoadPayload(h: Header, p: seq<byte>, host: Host, grant: nat -> nat): LoadOutcome
    requires |p| == PayloadSize(h)
  {
    var more := p[h.cpuStateSize..];
    Finish(DecodeCpu(p[..h.cpuStateSize]), LoadMap(more[..h.memoryMapSize], host, grant),
           DecodeGpu(more[h.memoryMapSize..]))
  }

  // The checks before anything is restored; None when all of them pass.
  function Verdict(h: Header, rest: seq<byte>): (v: Option<LoadOutcome>)
    ensures v.None? ==> PayloadSize(h) <= |rest|
    ensures v.Some? ==> !v.value.Loaded?
  {
    if h.magic != MAGIC then Some(CorruptFile)
    else if h.version != 1 then Some(VersionMismatch)
    else if PayloadSize(h) > |rest| then Some(CorruptFile)
    else if Checksum(rest[..PayloadSize(h)]) != h.checksum then Some(ChecksumMismatch)
    else None
  }

  function LoadParsed(h: Header, rest: seq<byte>, host: Host, grant: nat -> nat): LoadOutcome {
    match Verdict(h, rest)
    case Some(v) => v
    case None => LoadPayload(h, rest[..PayloadSize(h)], host, grant)
  }

  // Load into `host`, where the operating system answers a request to map region k with `grant(k)`.
  function LoadFile(file: seq<byte>, host: Host, grant: nat -> nat): LoadOutcome {
    if |file| < HEADER then CorruptFile
    else LoadParsed(ParseHeader(file[..HEADER]), file[HEADER..], host, grant)
  }

  // ----- the layout, by offsets -----

  lemma FrontOffsets(raw: seq<byte>)
    requires |raw| >= 408
    ensures var f := DecodeFront(raw).value.0;
      && f.magic == raw[..8] && f.version == FromLe(raw[8..12]) && f.pad == raw[12..16]
      && f.timestamp == FromLe(raw[16..24]) && f.gameName == raw[24..152] && f.description == raw[152..408]
    ensures DecodeFront(raw).value.1 == raw[408..]
  {
    var s1 := raw[8..];
    assert s1[..4] == raw[8..12] && s1[4..] == raw[12..];
    var s2 := raw[12..];
    assert s2[..4] == raw[12..16] && s2[4..] == raw[16..];
    var s3 := raw[16..];
    assert s3[..8] == raw[16..24] && s3[8..] == raw[24..];
    var s4 := raw[24..];
    assert s4[..128] == raw[24..152] && s4[128..] == raw[152..];
    var s5 := raw[152..];
    assert s5[..256] == raw[152..408] && s5[256..] == raw[408..];
  }

  lemma SizesOffsets(s: seq<byte>)
    requires |s| >= 16
    ensures var z := DecodeSizes(s).value.0;
      && z.cpuStateSize == FromLe(s[..4]) && z.memoryMapSize == FromLe(s[4..8])
      && z.gpuStateSize == FromLe(s[8..12]) && z.checksum == FromLe(s[12..16])
  {
    var s1 := s[4..];
    assert s1[..4] == s[4..8] && s1[4..] == s[8..];
    var s2 := s[8..];
    assert s2[..4] == s[8..12] && s2[4..] == s[12..];
    assert s[12..][..4] == s[12..16];
  }

  /** Where each field of the header is. */
  lemma HeaderOffsets(raw: seq<byte>)
    requires |raw| == 424
    ensures var h := ParseHeader(raw);
      && h.magic == raw[..8] && h.version == FromLe(raw[8..12]) && h.pad == raw[12..16]
      && h.timestamp == FromLe(raw[16..24]) && h.gameName == raw[24..152] && h.description == raw[152..408]
      && h.cpuStateSize == FromLe(raw[408..412]) && h.memoryMapSize == FromLe(raw[412..416])
      && h.gpuStateSize == FromLe(raw[416..420]) && h.checksum == FromLe(raw[420..424])
  {
    FrontOffsets(raw);
    SizesOffsets(raw[408..]);
    assert raw[408..][..4] == raw[408..412] && raw[408..][4..8] == raw[412..416];
    assert raw[408..][8..12] == raw[416..420] && raw[408..][12..16] == raw[420..424];
  }

  lemma {:induction false} WordOffset(s: seq<byte>, n: nat, k: nat)
    requires |s| >= 8 * n
    ensures k < n ==> DecodeWords(s, n).value.0[k] == FromLe(s[8 * k..8 * k + 8])
    ensures DecodeWords(s, n).value.1 == s[8 * n..]
    decreases n
  {
    if n > 0 {
      var rest := s[8..];
      assert ReadField(s, SIZE64) == Some((FromLe(s[..8]), rest));
      WordOffset(rest, n - 1, if k > 0 then k - 1 else 0);
      assert rest[8 * (n - 1)..] == s[8 * n..];
      if 0 < k < n { assert rest[8 * (k - 1)..8 * (k - 1) + 8] == s[8 * k..8 * k + 8]; }
    }
  }

  lemma {:induction false} LaneOffset(s: seq<byte>, n: nat, k: nat)
    requires |s| >= 16 * n && k < n
    ensures DecodeLanes(s, n).value.0[k] == s[16 * k..16 * k + 16]
    decreases n
  {
    var rest := s[16..];
    assert ReadBytes(s, LANE) == Some((s[..16], rest));
    if k > 0 {
      LaneOffset(rest, n - 1, k - 1);
      assert rest[16 * (k - 1)..16 * (k - 1) + 16] == s[16 * k..16 * k + 16];
    }
  }

  lemma CpuPieces(s: seq<byte>)
    requires |s| >= 416
    ensures var c, sys := DecodeCpu(s).value.0, DecodeWords(s[128..], SYSTEM).value.0;
      && c.gpr == DecodeWords(s, GPRS).value.0
      && c.rip == sys[0] && c.rflags == sys[1] && c.cs == sys[2] && c.ss == sys[3]
      && c.xmm == DecodeLanes(s[160..], LANES).value.0
  {
    WordOffset(s, GPRS, 0);
    WordOffset(s[128..], SYSTEM, 0);
    Slice(s, 128, 32);
  }

  lemma SystemOffset(s: seq<byte>, k: nat)
    requires |s| >= 160 && k < 4
    ensures DecodeWords(s[128..], SYSTEM).value.0[k] == FromLe(s[128 + 8 * k..136 + 8 * k])
  {
    WordOffset(s[128..], SYSTEM, k);
    assert s[128..][8 * k..8 * k + 8] == s[128 + 8 * k..136 + 8 * k];
  }

  /** Where each register is in the processor blob. */
  lemma CpuOffsets(s: seq<byte>, k: nat)
    requires |s| >= 416 && k < 16
    ensures var c := DecodeCpu(s).value.0;
      && c.gpr[k] == FromLe(s[8 * k..8 * k + 8])
      && c.rip == FromLe(s[128..136]) && c.rflags == FromLe(s[136..144])
      && c.cs == FromLe(s[144..152]) && c.ss == FromLe(s[152..160])
      && c.xmm[k] == s[160 + 16 * k..176 + 16 * k]
  {
    CpuPieces(s);
    WordOffset(s, GPRS, k);
    SystemOffset(s, 0); SystemOffset(s, 1); SystemOffset(s, 2); SystemOffset(s, 3);
    LaneOffset(s[160..], LANES, k);
    assert s[160..][16 * k..16 * k + 16] == s[160 + 16 * k..176 + 16 * k];
  }

  // The bytes of the file that the checks look at.
  predicate Whole(file: seq<byte>) {
    |file| >= 424 && file[..8] == [0x43, 0x68, 0x75, 0x63, 0x6B, 0x53, 0x74, 0x61]
  }

  function CpuPart(file: seq<byte>): nat
    requires |file| >= 424
  {
    FromLe(file[408..412])
  }

  function MapPart(file: seq<byte>): nat
    requires |file| >= 424
  {
    FromLe(file[412..416])
  }

  function GpuPart(file: seq<byte>): nat
    requires |file| >= 424
  {
    FromLe(file[416..420])
  }

  predicate Complete(file: seq<byte>)
    requires |file| >= 424
  {
    |file| - 424 >= CpuPart(file) + MapPart(file) + GpuPart(file)
  }

  predicate Intact(file: seq<byte>)
    requires |file| >= 424 && Complete(file)
  {
    Checksum(file[424..][..CpuPart(file) + MapPart(file) + GpuPart(file)]) == FromLe(file[420..424])
  }

  function MapBytes(file: seq<byte>): seq<byte>
    requires |file| >= 424 && Complete(file)
  {
    file[424..][CpuPart(file)..][..MapPart(file)]
  }

  lemma HeaderOfFile(file: seq<byte>)
    requires |file| >= 424
    ensures var h := ParseHeader(file[..424]);
      && h.magic == file[..8] && h.version == FromLe(file[8..12])
      && h.cpuStateSize == CpuPart(file) && h.memoryMapSize == MapPart(file) && h.gpuStateSize == GpuPart(file)
      && h.checksum == FromLe(file[420..424])
  {
    var raw := file[..424];
    HeaderOffsets(raw);
    assert raw[..8] == file[..8] && raw[8..12] == file[8..12] && raw[420..424] == file[420..424];
    assert raw[408..412] == file[408..412] && raw[412..416] == file[412..416] && raw[416..420] == file[416..420];
  }

  // Past the checks, a load fails for a section that is too short, or for the memory map.
  lemma PayloadOutcome(h: Header, p: seq<byte>, host: Host, grant: nat -> nat)
    requires |p| == PayloadSize(h)
    ensures var r, m := LoadPayload(h, p, host, grant), LoadMap(p[h.cpuStateSize..][..h.memoryMapSize], host, grant);
      && r != VersionMismatch && r != ChecksumMismatch && r != FileNotFound
      && (r == CorruptFile <==> h.cpuStateSize < 416 || (m.Restored? && h.gpuStateSize < 36))
      && (r == MemoryConflict <==> h.cpuStateSize >= 416 && m == Broken)
      && (r == AccessFault <==> h.cpuStateSize >= 416 && m == Fault)
  {
  }

  ghost predicate ShortSection(h: Header, p: seq<byte>, host: Host, grant: nat -> nat)
    requires |p| == PayloadSize(h)
  {
    h.cpuStateSize < 416 ||
    (LoadMap(p[h.cpuStateSize..][..h.memoryMapSize], host, grant).Restored? && h.gpuStateSize < 36)
  }

  lemma ParsedRefuses(h: Header, rest: seq<byte>, host: Host, grant: nat -> nat)
    requires h.magic == MAGIC && h.version == 1
    ensures var r := LoadParsed(h, rest, host, grant);
      && r != VersionMismatch && r != FileNotFound
      && if PayloadSize(h) > |rest| then r == CorruptFile
         else var p := rest[..PayloadSize(h)];
           && (r == ChecksumMismatch <==> Checksum(p) != h.checksum)
           && (r == CorruptFile <==> Checksum(p) == h.checksum && ShortSection(h, p, host, grant))
  {
    if PayloadSize(h) <= |rest| { PayloadOutcome(h, rest[..PayloadSize(h)], host, grant); }
  }

  lemma PartOfPart(s: seq<byte>, at: nat, n: nat, whole: nat)
    requires at + n <= whole <= |s|
    ensures s[..whole][at..][..n] == s[at..][..n]
  {
  }

  lemma PartsOfFile(file: seq<byte>)
    requires |file| >= 424
    ensures var h, rest := ParseHeader(file[..HEADER]), file[HEADER..];
      && (Complete(file) <==> PayloadSize(h) <= |rest|)
      && (Complete(file) ==> var p := rest[..PayloadSize(h)];
            (Intact(file) <==> Checksum(p) == h.checksum) && p[h.cpuStateSize..][..h.memoryMapSize] == MapBytes(file))
  {
    HeaderOfFile(file);
    var h, rest := ParseHeader(file[..HEADER]), file[HEADER..];
    if PayloadSize(h) <= |rest| { PartOfPart(rest, h.cpuStateSize, h.memoryMapSize, PayloadSize(h)); }
  }

  /** Which file is refused with which result, by the bytes of the file. */
  lemma LoadRefuses(file: seq<byte>, host: Host, grant: nat -> nat)
    ensures var r := LoadFile(file, host, grant);
      && (r == VersionMismatch <==> Whole(file) && FromLe(file[8..12]) != 1)
      && (r == ChecksumMismatch <==> Whole(file) && FromLe(file[8..12]) == 1 && Complete(file) && !Intact(file))
      && (r == CorruptFile <==>
            || !Whole(file)
            || (FromLe(file[8..12]) == 1 && !Complete(file))
            || (FromLe(file[8..12]) == 1 && Complete(file) && Intact(file) &&
                (CpuPart(file) < 416 || (LoadMap(MapBytes(file), host, grant).Restored? && GpuPart(file) < 36))))
      && r != FileNotFound
  {
    if |file| >= 424 {
      var h, rest := ParseHeader(file[..HEADER]), file[HEADER..];
      HeaderOfFile(file);
      PartsOfFile(file);
      assert MAGIC == [0x43, 0x68, 0x75, 0x63, 0x6B, 0x53, 0x74, 0x61];
      if h.magic == MAGIC && h.version == 1 { ParsedRefuses(h, rest, host, grant); }
    }
  }

  // ----- round trip -----

  lemma CpuSize(s: Snapshot)
    requires WellSized(s.ctx)
    ensures |EncodeCpu(s.ctx)| == 416
  {
    CpuRead(s.ctx, []);
  }

  lemma SavedSizes(s: Snapshot)
    requires WellSized(s.ctx)
    ensures HeaderOf(s).cpuStateSize == 416 && HeaderOf(s).gpuStateSize == 36
    ensures HeaderOf(s).memoryMapSize <= |EncodeMap(s.regions, s.host.bytes)|
    ensures HeaderOf(s).memoryMapSize == |EncodeMap(s.regions, s.host.bytes)| <==>
      |EncodeMap(s.regions, s.host.bytes)| < U32
  {
    CpuSize(s);
    SmallModulus(416);
    SmallModulus(36);
    Truncation(|EncodeMap(s.regions, s.host.bytes)|);
  }

  lemma Truncation(x: nat)
    ensures x % U32 <= x && x % U32 < U32
    ensures x % U32 == x <==> x < U32
  {
  }

  lemma SavedHead(s: Snapshot)
    requires |s.pad| == PAD
    ensures |SaveFile(s)| >= HEADER && ParseHeader(SaveFile(s)[..HEADER]) == HeaderOf(s)
    ensures SaveFile(s)[HEADER..] == Payload(s)
  {
    Truncation(|EncodeCpu(s.ctx)|);
    Truncation(|EncodeMap(s.regions, s.host.bytes)|);
    Truncation(|EncodeGpu(s.gpu)|);
    ChecksumBound(Payload(s));
    HeaderRead(HeaderOf(s));
    var head := EncodeHeader(HeaderOf(s));
    assert SaveFile(s)[..HEADER] == head && SaveFile(s)[HEADER..] == Payload(s);
  }

  lemma SavedHeader(s: Snapshot, host: Host, grant: nat -> nat)
    requires |s.pad| == PAD
    ensures LoadFile(SaveFile(s), host, grant) == LoadParsed(HeaderOf(s), Payload(s), host, grant)
  {
    SavedHead(s);
  }

  lemma FieldsOfFile(file: seq<byte>, h: Header)
    requires |file| >= 424 && ParseHeader(file[..424]) == h
    ensures file[..8] == h.magic && FromLe(file[8..12]) == h.version && FromLe(file[16..24]) == h.timestamp
    ensures file[24..152] == h.gameName && file[152..408] == h.description
    ensures FromLe(file[408..412]) == h.cpuStateSize && FromLe(file[412..416]) == h.memoryMapSize
    ensures FromLe(file[416..420]) == h.gpuStateSize && FromLe(file[420..424]) == h.checksum
  {
    HeaderOfFile(file);
    MiddleOfFile(file);
  }

  /** The bytes in front of the payload, field by field. */
  ghost predicate StartsAs(file: seq<byte>, timestamp: nat, text: seq<byte>, cpu: nat, map_: nat, gpu: nat, sum: nat) {
    && |file| >= 424 && file[..8] == [0x43, 0x68, 0x75, 0x63, 0x6B, 0x53, 0x74, 0x61]
    && FromLe(file[8..12]) == 1 && FromLe(file[16..24]) == timestamp
    && (forall i :: 0 <= i < 128 ==> file[24..152][i] == 0)
    && (forall i :: 0 <= i < 256 ==> file[152..408][i] == if i < |text| && i < 255 then text[i] else 0)
    && FromLe(file[408..412]) == cpu && FromLe(file[412..416]) == map_
    && FromLe(file[416..420]) == gpu && FromLe(file[420..424]) == sum
  }

  lemma HeaderStarts(file: seq<byte>, h: Header, timestamp: nat, text: seq<byte>)
    requires |file| >= 424 && ParseHeader(file[..424]) == h
    requires h.magic == MAGIC && h.version == 1 && h.timestamp == timestamp
    requires h.gameName == seq(128, i => 0) && h.description == Description(text)
    ensures StartsAs(file, timestamp, text, h.cpuStateSize, h.memoryMapSize, h.gpuStateSize, h.checksum)
  {
    FieldsOfFile(file, h);
  }

  /** What Save writes. */
  lemma SavedBytes(s: Snapshot)
    requires |s.pad| == PAD && WellSized(s.ctx)
    ensures StartsAs(SaveFile(s), s.timestamp, s.text, 416,
      |EncodeMap(s.regions, s.host.bytes)| % 0x1_0000_0000, 36, Checksum(Payload(s)))
    ensures SaveFile(s)[424..] == Payload(s)
  {
    SavedHead(s);
    SavedSizes(s);
    HeaderStarts(SaveFile(s), HeaderOf(s), s.timestamp, s.text);
  }

  lemma MiddleOfFile(file: seq<byte>)
    requires |file| >= 424
    ensures var h := ParseHeader(file[..424]);
      h.timestamp == FromLe(file[16..24]) && h.gameName == file[24..152] && h.description == file[152..408]
  {
    var raw := file[..424];
    HeaderOffsets(raw);
    assert raw[16..24] == file[16..24] && raw[24..152] == file[24..152] && raw[152..408] == file[152..408];
  }

  // The three sections of the payload, the middle one cut to the size in the header.
  lemma Sections(h: Header, c: seq<byte>, m: seq<byte>, g: seq<byte>)
    requires h.cpuStateSize == |c| && h.gpuStateSize == |g| && h.memoryMapSize <= |m|
    ensures PayloadSize(h) <= |c + (m + g)|
    ensures var p := (c + (m + g))[..PayloadSize(h)];
      && p[..|c|] == c && p[|c|..][..h.memoryMapSize] == m[..h.memoryMapSize]
      && (h.memoryMapSize == |m| ==> p == c + (m + g))
  {
    var p := (c + (m + g))[..PayloadSize(h)];
    assert p[..|c|] == c;
    assert p[|c|..][..h.memoryMapSize] == m[..h.memoryMapSize];
    if h.memoryMapSize == |m| { assert p == c + (m + g); }
  }

  // The payload as far as the sizes in the header reach.
  function Seen(s: Snapshot): seq<byte> {
    if PayloadSize(HeaderOf(s)) <= |Payload(s)| then Payload(s)[..PayloadSize(HeaderOf(s))] else []
  }

  lemma ParsedCases(h: Header, payload: seq<byte>, host: Host, grant: nat -> nat)
    requires h.magic == MAGIC && h.version == 1 && h.checksum == Checksum(payload)
    requires PayloadSize(h) <= |payload|
    ensures var p := payload[..PayloadSize(h)];
      LoadParsed(h, payload, host, grant) ==
      if Checksum(p) == Checksum(payload) then LoadPayload(h, p, host, grant) else ChecksumMismatch
  {
  }

  lemma LoadOfSaved(s: Snapshot, host: Host, grant: nat -> nat)
    requires WellSized(s.ctx) && |s.pad| == PAD
    ensures PayloadSize(HeaderOf(s)) <= |Payload(s)| && |Seen(s)| == PayloadSize(HeaderOf(s))
    ensures LoadFile(SaveFile(s), host, grant) ==
      if Checksum(Seen(s)) == Checksum(Payload(s)) then LoadPayload(HeaderOf(s), Seen(s), host, grant)
      else ChecksumMismatch
  {
    SavedHeader(s, host, grant);
    SeenSections(s);
    ParsedCases(HeaderOf(s), Payload(s), host, grant);
  }

  lemma SectionsDecode(h: Header, p: seq<byte>, ctx: Context)
    requires |p| == PayloadSize(h) && WellSized(ctx)
    requires p[..h.cpuStateSize] == EncodeCpu(ctx) && h.gpuStateSize >= 36
    ensures DecodeCpu(p[..h.cpuStateSize]) == Some((ctx, []))
    ensures DecodeGpu(p[h.cpuStateSize..][h.memoryMapSize..]).Some?
  {
    CpuRead(ctx, []);
    assert EncodeCpu(ctx) + [] == EncodeCpu(ctx);
  }

  lemma FinishWhole(cpu: Option<(Context, seq<byte>)>, m: MapLoad, gpu: Option<(GpuStats, seq<byte>)>)
    requires cpu.Some? && gpu.Some?
    ensures match Finish(cpu, m, gpu)
      case Loaded(ctx, regions, host) => m.Restored? && (ctx, regions, host) == (cpu.value.0, m.regions, m.host)
      case MemoryConflict => m == Broken
      case AccessFault => m == Fault
      case _ => false
  {
  }

  function SavedRegions(s: Snapshot): seq<SavedRegion> {
    SavedAll(Committed(s.regions), s.host.bytes)
  }

  /** What the format can hold: storable regions, and a memory-map blob shorter than 2^32 bytes. */
  ghost predicate Holdable(s: Snapshot) {
    StorableMap(s.regions) && |EncodeMap(s.regions, s.host.bytes)| < U32
  }

  // What a load into `host` makes of the memory map that was saved.
  function MapLoadOf(s: Snapshot, host: Host, grant: nat -> nat): MapLoad
    requires HeaderOf(s).memoryMapSize <= |EncodeMap(s.regions, s.host.bytes)|
  {
    LoadMap(EncodeMap(s.regions, s.host.bytes)[..HeaderOf(s).memoryMapSize], host, grant)
  }

  lemma SavedLoads(s: Snapshot, host: Host, grant: nat -> nat)
    requires WellSized(s.ctx) && |s.pad| == PAD
    ensures HeaderOf(s).memoryMapSize <= |EncodeMap(s.regions, s.host.bytes)|
    ensures var r, m := LoadFile(SaveFile(s), host, grant), MapLoadOf(s, host, grant);
      && (r == ChecksumMismatch || (r == MemoryConflict && m == Broken) || (r == AccessFault && m == Fault)
          || (m.Restored? && r == Loaded(s.ctx, m.regions, m.host)))
      && (r == ChecksumMismatch ==> !Holdable(s))
  {
    var h, p := HeaderOf(s), Seen(s);
    LoadOfSaved(s, host, grant);
    SeenSections(s);
    SectionsDecode(h, p, s.ctx);
    var more := p[h.cpuStateSize..];
    FinishWhole(DecodeCpu(p[..h.cpuStateSize]), MapLoadOf(s, host, grant), DecodeGpu(more[h.memoryMapSize..]));
  }

  lemma MapLoadCases(s: Snapshot, host: Host, grant: nat -> nat)
    requires HeaderOf(s).memoryMapSize <= |EncodeMap(s.regions, s.host.bytes)|
    requires HeaderOf(s).memoryMapSize == |EncodeMap(s.regions, s.host.bytes)| <==>
      |EncodeMap(s.regions, s.host.bytes)| < U32
    ensures var m := MapLoadOf(s, host, grant);
      if Holdable(s) then m == match Restore(host, SavedRegions(s), grant)
        case None => Fault
        case Some(h1) => Restored(SavedRegions(s), [], h1)
      else m.Restored? ==> m.regions != SavedRegions(s)
  {
    SavedMapLoads(s.regions, s.host.bytes, HeaderOf(s).memoryMapSize, host, grant);
  }

  /** A save that the format holds restores its context and regions, or the load faults; no other save gives
      them back. */
  lemma SaveLoads(s: Snapshot, host: Host, grant: nat -> nat)
    requires WellSized(s.ctx) && |s.pad| == PAD
    ensures var r := LoadFile(SaveFile(s), host, grant);
      if Holdable(s) then r == match Restore(host, SavedRegions(s), grant)
        case None => AccessFault
        case Some(h1) => Loaded(s.ctx, SavedRegions(s), h1)
      else r.Loaded? ==> r.regions != SavedRegions(s)
  {
    SavedLoads(s, host, grant);
    SavedSizes(s);
    MapLoadCases(s, host, grant);
  }

  /** Load gives exactly the saved context and regions if and only if the format holds them and no copy
      of a page back into the host faults. */
  lemma SaveLoadIff(s: Snapshot, host: Host, grant: nat -> nat)
    requires WellSized(s.ctx) && |s.pad| == PAD
    ensures var r := LoadFile(SaveFile(s), host, grant);
      (r.Loaded? && r.ctx == s.ctx && r.regions == SavedRegions(s)) <==>
      Holdable(s) && Restore(host, SavedRegions(s), grant).Some?
  {
    SaveLoads(s, host, grant);
  }

  lemma SeenSections(s: Snapshot)
    requires WellSized(s.ctx)
    ensures var h, m, p := HeaderOf(s), EncodeMap(s.regions, s.host.bytes), Seen(s);
      && h.cpuStateSize == 416 && h.gpuStateSize == 36 && h.memoryMapSize <= |m|
      && (h.memoryMapSize == |m| <==> |m| < U32)
      && PayloadSize(h) <= |Payload(s)| && |p| == PayloadSize(h)
      && p[..h.cpuStateSize] == EncodeCpu(s.ctx)
      && p[h.cpuStateSize..][..h.memoryMapSize] == m[..h.memoryMapSize]
      && (h.memoryMapSize == |m| ==> p == Payload(s))
  {
    SavedSizes(s);
    CpuSize(s);
    Sections(HeaderOf(s), EncodeCpu(s.ctx), EncodeMap(s.regions, s.host.bytes), EncodeGpu(s.gpu));
  }

  // ----- damage -----

  // The payload, as far as the sizes in the header say.
  function PayloadOf(file: seq<byte>): seq<byte>
    requires |file| >= HEADER
  {
    var n := PayloadSize(ParseHeader(file[..HEADER]));
    if HEADER + n <= |file| then file[HEADER..][..n] else []
  }

  /** Load gets past every check up to the checksum. */
  ghost predicate ChecksumHolds(file: seq<byte>) {
    |file| >= HEADER && var h := ParseHeader(file[..HEADER]);
      && h.magic == MAGIC && h.version == 1 && HEADER + PayloadSize(h) <= |file|
      && Checksum(PayloadOf(file)) == h.checksum
  }

  /** Damage to at most 32 consecutive payload bits of such a file is always reported. */
  lemma DamageIsReported(file: seq<byte>, bad: seq<byte>, at: nat, width: nat, host: Host, grant: nat -> nat)
    requires ChecksumHolds(file) && |bad| == |file| && bad[..HEADER] == file[..HEADER]
    requires DifferInBurst(PayloadOf(file), PayloadOf(bad), at, width)
    ensures LoadFile(bad, host, grant) == ChecksumMismatch
  {
    BurstsAreDetected(PayloadOf(file), PayloadOf(bad), at, width);
  }

  // ----- the operations -----

  class CpuState {
    var gpr: seq<nat>
    var rip: nat
    var rflags: nat
    var cs: nat
    var ss: nat
    var xmm: seq<seq<byte>>

    constructor (c: Context)
      ensures Ctx() == c
    {
      gpr, rip, rflags, cs, ss, xmm := c.gpr, c.rip, c.rflags, c.cs, c.ss, c.xmm;
    }

    function Ctx(): Context
      reads this
    {
      Context(gpr, rip, rflags, cs, ss, xmm)
    }
  }

  lemma {:induction false} EncodeWordsSnoc(ws: seq<nat>, w: nat)
    ensures EncodeWords(ws + [w]) == EncodeWords(ws) + Le(w, SIZE64)
  {
    if ws == [] {
      assert ([w])[1..] == [];
      assert EncodeWords([w]) == Le(w, SIZE64) + [];
    } else {
      assert (ws + [w])[1..] == ws[1..] + [w];
      EncodeWordsSnoc(ws[1..], w);
      Assoc(Le(ws[0], SIZE64), EncodeWords(ws[1..]), Le(w, SIZE64));
    }
  }

  lemma {:induction false} EncodeLanesSnoc(xs: seq<seq<byte>>, x: seq<byte>)
    ensures EncodeLanes(xs + [x]) == EncodeLanes(xs) + x
  {
    if xs == [] {
      assert ([x])[1..] == [];
      assert EncodeLanes([x]) == x + [];
    } else {
      assert (xs + [x])[1..] == xs[1..] + [x];
      EncodeLanesSnoc(xs[1..], x);
      Assoc(xs[0], EncodeLanes(xs[1..]), x);
    }
  }

  method WriteWords(blob: Blob, ws: seq<nat>)
    modifies blob
    ensures blob.data == old(blob.data) + EncodeWords(ws)
  {
    ghost var before := blob.data;
    assert before + [] == before;
    for k := 0 to |ws|
      invariant blob.data == before + EncodeWords(ws[..k])
    {
      assert ws[..k+1] == ws[..k] + [ws[k]];
      EncodeWordsSnoc(ws[..k], ws[k]);
      Assoc(before, EncodeWords(ws[..k]), Le(ws[k], SIZE64));
      blob.WriteT(ws[k], SIZE64);
    }
    assert ws[..|ws|] == ws;
  }

  method WriteLanes(blob: Blob, xs: seq<seq<byte>>)
    modifies blob
    ensures blob.data == old(blob.data) + EncodeLanes(xs)
  {
    ghost var before := blob.data;
    assert before + [] == before;
    for k := 0 to |xs|
      invariant blob.data == before + EncodeLanes(xs[..k])
    {
      assert xs[..k+1] == xs[..k] + [xs[k]];
      EncodeLanesSnoc(xs[..k], xs[k]);
      Assoc(before, EncodeLanes(xs[..k]), xs[k]);
      blob.Write(xs[k]);
    }
    assert xs[..|xs|] == xs;
  }

  method SerializeCpuContext(blob: Blob, cpu: CpuState)
    modifies blob
    ensures blob.data == old(blob.data) + EncodeCpu(cpu.Ctx())
  {
    ghost var before, c := blob.data, cpu.Ctx();
    WriteWords(blob, cpu.gpr);
    WriteWords(blob, [cpu.rip, cpu.rflags, cpu.cs, cpu.ss]);
    WriteLanes(blob, cpu.xmm);
    var sys := [c.rip, c.rflags, c.cs, c.ss];
    Assoc(before + EncodeWords(c.gpr), EncodeWords(sys), EncodeLanes(c.xmm));
    Assoc(before, EncodeWords(c.gpr), EncodeWords(sys) + EncodeLanes(c.xmm));
  }

  // Registers are overwritten one by one as they are read.
  method ReadGprs(reader: BlobReader, cpu: CpuState) returns (ok: bool)
    requires reader.offset <= |reader.data| && |cpu.gpr| == 16
    modifies reader, cpu`gpr
    ensures reader.offset <= |reader.data|
    ensures ok <==> DecodeWords(old(reader.Left()), GPRS).Some?
    ensures ok ==> (cpu.gpr, reader.Left()) == DecodeWords(old(reader.Left()), GPRS).value
  {
    ghost var goal := DecodeWords(reader.Left(), GPRS);
    if goal.Some? { assert [] + goal.value.0 == goal.value.0; }
    var k := 0;
    while k < 16
      invariant 0 <= k <= 16 && |cpu.gpr| == 16 && reader.offset <= |reader.data|
      invariant WordsAfter(cpu.gpr[..k], DecodeWords(reader.Left(), GPRS - k)) == goal
    {
      NextWord(reader.Left(), 16 - k, cpu.gpr[..k]);
      var v;
      ok, v := reader.ReadT(SIZE64);
      if !ok { return; }
      cpu.gpr := cpu.gpr[k := v];
      assert cpu.gpr[..k+1] == cpu.gpr[..k] + [v];
      k := k + 1;
    }
    assert cpu.gpr[..16] + [] == cpu.gpr;
    ok := true;
  }

  function WordsAfter(ws: seq<nat>, d: Option<(seq<nat>, seq<byte>)>): Option<(seq<nat>, seq<byte>)> {
    if d.None? then None else Some((ws + d.value.0, d.value.1))
  }

  lemma NextWord(s: seq<byte>, n: nat, ws: seq<nat>)
    requires n > 0
    ensures ReadField(s, SIZE64).None? ==> DecodeWords(s, n).None?
    ensures ReadField(s, SIZE64).Some? ==> var (w, rest) := ReadField(s, SIZE64).value;
      WordsAfter(ws, DecodeWords(s, n)) == WordsAfter(ws + [w], DecodeWords(rest, n - 1))
  {
    if ReadField(s, SIZE64).Some? {
      var (w, rest) := ReadField(s, SIZE64).value;
      var d := DecodeWords(rest, n - 1);
      if d.Some? { assert ws + ([w] + d.value.0) == (ws + [w]) + d.value.0; }
    }
  }

  method ReadSystem(reader: BlobReader, cpu: CpuState) returns (ok: bool)
    requires reader.offset <= |reader.data|
    modifies reader, cpu`rip, cpu`rflags, cpu`cs, cpu`ss
    ensures reader.offset <= |reader.data|
    ensures ok <==> DecodeWords(old(reader.Left()), SYSTEM).Some?
    ensures ok ==>
      ([cpu.rip, cpu.rflags, cpu.cs, cpu.ss], reader.Left()) == DecodeWords(old(reader.Left()), SYSTEM).value
  {
    FourWords(reader.Left());
    var v;
    ok, v := reader.ReadT(SIZE64);
    if !ok { return; }
    cpu.rip := v;
    ok, v := reader.ReadT(SIZE64);
    if !ok { return; }
    cpu.rflags := v;
    ok, v := reader.ReadT(SIZE64);
    if !ok { return; }
    cpu.cs := v;
    ok, v := reader.ReadT(SIZE64);
    if !ok { return; }
    cpu.ss := v;
  }

  function FourFields(s: seq<byte>): Option<(seq<nat>, seq<byte>)> {
    var (a, s1) :- ReadField(s, SIZE64);
    var (b, s2) :- ReadField(s1, SIZE64);
    var (c, s3) :- ReadField(s2, SIZE64);
    var (d, s4) :- ReadField(s3, SIZE64);
    Some(([a, b, c, d], s4))
  }

  lemma FourWords(s: seq<byte>)
    ensures DecodeWords(s, SYSTEM) == FourFields(s)
  {
    NextWord(s, 4, []);
    if |s| >= 32 {
      var (a, s1) := ReadField(s, SIZE64).value;
      var (b, s2) := ReadField(s1, SIZE64).value;
      var (c, s3) := ReadField(s2, SIZE64).value;
      var (d, s4) := ReadField(s3, SIZE64).value;
      NextWord(s1, 3, [a]);
      NextWord(s2, 2, [a, b]);
      NextWord(s3, 1, [a, b, c]);
      var w := DecodeWords(s, SYSTEM).value.0;
      assert [] + w == w;
      assert [a, b, c, d] + [] == [a, b, c, d];
      assert [] + [a] == [a] && [a] + [b] == [a, b] && [a, b] + [c] == [a, b, c] && [a, b, c] + [d] == [a, b, c, d];
    }
  }

  function LanesAfter(xs: seq<seq<byte>>, d: Option<(seq<seq<byte>>, seq<byte>)>): Option<(seq<seq<byte>>, seq<byte>)> {
    if d.None? then None else Some((xs + d.value.0, d.value.1))
  }

  lemma NextLane(s: seq<byte>, n: nat, xs: seq<seq<byte>>)
    requires n > 0
    ensures ReadBytes(s, LANE).None? ==> DecodeLanes(s, n).None?
    ensures ReadBytes(s, LANE).Some? ==> var (x, rest) := ReadBytes(s, LANE).value;
      LanesAfter(xs, DecodeLanes(s, n)) == LanesAfter(xs + [x], DecodeLanes(rest, n - 1))
  {
    if ReadBytes(s, LANE).Some? {
      var (x, rest) := ReadBytes(s, LANE).value;
      var d := DecodeLanes(rest, n - 1);
      if d.Some? { assert xs + ([x] + d.value.0) == (xs + [x]) + d.value.0; }
    }
  }

  method ReadLane(reader: BlobReader, cpu: CpuState, k: nat, ghost n: nat) returns (ok: bool)
    requires reader.offset <= |reader.data| && k < |cpu.xmm| && n > 0
    modifies reader, cpu`xmm
    ensures reader.offset <= |reader.data| && |cpu.xmm| == |old(cpu.xmm)|
    ensures var goal := LanesAfter(old(cpu.xmm[..k]), DecodeLanes(old(reader.Left()), n));
      if ok then LanesAfter(cpu.xmm[..k+1], DecodeLanes(reader.Left(), n - 1)) == goal else goal.None?
  {
    NextLane(reader.Left(), n, cpu.xmm[..k]);
    var x;
    ok, x := reader.Read(LANE);
    if !ok { return; }
    cpu.xmm := cpu.xmm[k := x];
    assert cpu.xmm[..k+1] == old(cpu.xmm[..k]) + [x];
  }

  method ReadLanes(reader: BlobReader, cpu: CpuState) returns (ok: bool)
    requires reader.offset <= |reader.data| && |cpu.xmm| == 16
    modifies reader, cpu`xmm
    ensures reader.offset <= |reader.data|
    ensures ok <==> DecodeLanes(old(reader.Left()), LANES).Some?
    ensures ok ==> (cpu.xmm, reader.Left()) == DecodeLanes(old(reader.Left()), LANES).value
  {
    ghost var goal := DecodeLanes(reader.Left(), LANES);
    if goal.Some? { assert [] + goal.value.0 == goal.value.0; }
    var k := 0;
    ghost var n := LANES;
    while k < 16
      invariant 0 <= k <= 16 && n == LANES - k && |cpu.xmm| == 16 && reader.offset <= |reader.data|
      invariant LanesAfter(cpu.xmm[..k], DecodeLanes(reader.Left(), n)) == goal
    {
      ok := ReadLane(reader, cpu, k, n);
      if !ok { return; }
      k := k + 1;
      n := n - 1;
    }
    assert cpu.xmm[..16] + [] == cpu.xmm;
    ok := true;
  }

  method DeserializeCpuContext(reader: BlobReader, cpu: CpuState) returns (ok: bool)
    requires reader.offset <= |reader.data| && |cpu.gpr| == 16 && |cpu.xmm| == 16
    modifies reader, cpu
    ensures ok <==> DecodeCpu(old(reader.Left())).Some?
    ensures ok ==> (cpu.Ctx(), reader.Left()) == DecodeCpu(old(reader.Left())).value
  {
    ok := ReadGprs(reader, cpu);
    if !ok { return; }
    ok := ReadSystem(reader, cpu);
    if !ok { return; }
    ok := ReadLanes(reader, cpu);
  }

  method SerializeGpuState(blob: Blob, g: GpuStats)
    modifies blob
    ensures blob.data == old(blob.data) + EncodeGpu(g)
  {
    ghost var before := blob.data;
    WriteWords(blob, [g.submits, g.flips, g.barriers, g.fencesSignaled]);
    blob.WriteT(g.activeQueues, SIZE32);
    Assoc(before, EncodeWords([g.submits, g.flips, g.barriers, g.fencesSignaled]), Le(g.activeQueues, SIZE32));
  }

  method DeserializeGpuState(reader: BlobReader) returns (ok: bool)
    requires reader.offset <= |reader.data|
    modifies reader
    ensures ok <==> DecodeGpu(old(reader.Left())).Some?
  {
    FourWords(reader.Left());
    var v;
    ok, v := reader.ReadT(SIZE64);
    if !ok { return; }
    ok, v := reader.ReadT(SIZE64);
    if !ok { return; }
    ok, v := reader.ReadT(SIZE64);
    if !ok { return; }
    ok, v := reader.ReadT(SIZE64);
    if !ok { return; }
    ok, v := reader.ReadT(SIZE32);
  }

  // The three blobs of Save; not ok when a page could not be read.
  method SerializeAll(cpu: CpuState, regions: seq<Region>, host: HostState, gpu: GpuStats)
    returns (ok: bool, c: seq<byte>, m: seq<byte>, g: seq<byte>)
    ensures ok <==> SaveReturns(host.View(), regions)
    ensures ok ==> c == EncodeCpu(cpu.Ctx()) && m == EncodeMap(regions, host.bytes) && g == EncodeGpu(gpu)
  {
    c, m, g := [], [], [];
    var cpuBlob := new Blob();
    SerializeCpuContext(cpuBlob, cpu);
    c := cpuBlob.data;
    assert [] + EncodeCpu(cpu.Ctx()) == EncodeCpu(cpu.Ctx());
    var memBlob := new Blob();
    ok := SerializeMemoryMap(memBlob, regions, host);
    if !ok { return; }
    m := memBlob.data;
    assert [] + EncodeMap(regions, host.bytes) == EncodeMap(regions, host.bytes);
    var gpuBlob := new Blob();
    SerializeGpuState(gpuBlob, gpu);
    g := gpuBlob.data;
    assert [] + EncodeGpu(gpu) == EncodeGpu(gpu);
  }

  datatype SaveResult = Saved | InvalidState | ReadFault

  /** The manager; `files` stands for the save directory, slot by slot. */
  class SaveStateManager {
    var initialised: bool
    var files: map<int, seq<byte>>
    const crc: Crc32State

    constructor ()
      ensures !initialised && files == map[] && crc.Valid() && fresh(crc) && fresh(crc.table)
    {
      initialised, files := false, map[];
      crc := new Crc32State();
    }

    method PayloadChecksum(payload: seq<byte>) returns (sum: nat)
      requires crc.Valid()
      modifies crc, crc.table
      ensures crc.Valid() && sum == Checksum(payload)
    {
      sum := crc.Crc32(payload);
    }

    // The header in front of the payload.
    method FileOf(c: seq<byte>, m: seq<byte>, g: seq<byte>, timestamp: u64, text: seq<byte>, pad: seq<byte>,
                  ghost s: Snapshot) returns (file: seq<byte>)
      requires crc.Valid()
      requires c == EncodeCpu(s.ctx) && m == EncodeMap(s.regions, s.host.bytes) && g == EncodeGpu(s.gpu)
      requires timestamp == s.timestamp && text == s.text && pad == s.pad
      modifies crc, crc.table
      ensures crc.Valid() && file == SaveFile(s)
    {
      var payload := c + (m + g);
      var sum := PayloadChecksum(payload);
      file := EncodeHeader(Header(MAGIC, 1, pad, timestamp, seq(128, i => 0), Description(text),
        |c| % U32, |m| % U32, |g| % U32, sum)) + payload;
    }

    method Save(slot: int, cpu: CpuState, regions: seq<Region>, host: HostState, gpu: GpuStats,
                timestamp: u64, text: seq<byte>, pad: seq<byte>) returns (r: SaveResult)
      requires crc.Valid()
      modifies this, crc, crc.table
      ensures crc.Valid() && initialised == old(initialised)
      ensures r == InvalidState <==> !old(initialised) || slot < 0 || slot > 9
      ensures r == ReadFault ==> !SaveReturns(host.View(), regions)
      ensures r == Saved ==> SaveReturns(host.View(), regions)
      ensures r == Saved ==> files == old(files)[slot :=
        SaveFile(Snapshot(cpu.Ctx(), regions, host.View(), gpu, timestamp, text, pad))]
      ensures r != Saved ==> files == old(files)
    {
      if !initialised { return InvalidState; }
      if slot < 0 || slot > 9 { return InvalidState; }
      var ok, c, m, g := SerializeAll(cpu, regions, host, gpu);
      if !ok { return ReadFault; }
      ghost var s := Snapshot(cpu.Ctx(), regions, host.View(), gpu, timestamp, text, pad);
      var file := FileOf(c, m, g, timestamp, text, pad, s);
      files := files[slot := file];
      return Saved;
    }

    // Load from the payload on, once the checks have passed.
    method LoadSections(h: Header, p: seq<byte>, cpu: CpuState, host: HostState, grant: nat -> nat)
      returns (r: LoadOutcome)
      requires |p| == PayloadSize(h) && |cpu.gpr| == 16 && |cpu.xmm| == 16
      modifies cpu, host
      ensures r == LoadPayload(h, p, old(host.View()), grant)
      ensures r.Loaded? ==> cpu.Ctx() == r.ctx && host.View() == r.host
    {
      var cpuReader := new BlobReader(p[..h.cpuStateSize]);
      var ok := DeserializeCpuContext(cpuReader, cpu);
      if !ok { return CorruptFile; }
      var m := p[h.cpuStateSize..][..h.memoryMapSize];
      var memReader := new BlobReader(m);
      LoadMapDecodes(m, host.View(), grant);
      var ending := DeserializeMemoryMap(memReader, host, grant);
      if ending == Cut { return MemoryConflict; }
      if ending == Faulted { return AccessFault; }
      var gpuReader := new BlobReader(p[h.cpuStateSize..][h.memoryMapSize..]);
      ok := DeserializeGpuState(gpuReader);
      if !ok { return CorruptFile; }
      r := Loaded(cpu.Ctx(), DecodeMap(m).value.0, host.View());
    }

    method Check(h: Header, rest: seq<byte>) returns (verdict: Option<LoadOutcome>)
      requires crc.Valid()
      modifies crc, crc.table
      ensures crc.Valid() && verdict == Verdict(h, rest)
    {
      if h.magic != MAGIC { return Some(CorruptFile); }
      if h.version != 1 { return Some(VersionMismatch); }
      var size := h.cpuStateSize + h.memoryMapSize + h.gpuStateSize;
      if size > |rest| { return Some(CorruptFile); }
      var sum := PayloadChecksum(rest[..size]);
      verdict := if sum != h.checksum then Some(ChecksumMismatch) else None;
    }

    method Load(slot: int, cpu: CpuState, host: HostState, grant: nat -> nat) returns (r: LoadOutcome)
      requires crc.Valid() && |cpu.gpr| == 16 && |cpu.xmm| == 16
      modifies crc, crc.table, cpu, host
      ensures crc.Valid()
      ensures r == if !initialised then CorruptFile else if slot !in files then FileNotFound
        else LoadFile(files[slot], old(host.View()), grant)
      ensures r.Loaded? ==> cpu.Ctx() == r.ctx && host.View() == r.host
    {
      if !initialised { return CorruptFile; }
      if slot !in files { return FileNotFound; }
      var file := files[slot];
      if |file| < HEADER { return CorruptFile; }
      var h, rest := ParseHeader(file[..HEADER]), file[HEADER..];
      var verdict := Check(h, rest);
      if verdict.Some? { return verdict.value; }
      r := LoadSections(h, rest[..PayloadSize(h)], cpu, host, grant);
    }
  }

  // ----- saving and then loading -----

  ghost predicate Inside(g: Region, a: nat) {
    g.base <= a < g.base + g.size
  }

  // What the memory manager promises of its regions: whole pages, not at zero, and apart from each other.
  ghost predicate Recorded(rs: seq<Region>) {
    && (forall g :: g in rs ==> g.base != 0 && g.size == AlignUp(g.size))
    && forall i, j, a: nat :: 0 <= i < j < |rs| && Inside(rs[i], a) ==> !Inside(rs[j], a)
  }

  // The operating system answers a request to map region k with the base the region had.
  predicate SameBases(host: Host, rs: seq<Region>, grant: nat -> nat) {
    forall k :: 0 <= k < |rs| && !Tracked(host.regions, rs[k].base) ==> grant(k) == rs[k].base
  }

  // The bytes of a region hold what they held when it was saved.
  ghost predicate PageBack(now: Memory, then_: Memory, g: Region) {
    forall a: nat :: Inside(g, a) ==> now(a) == then_(a)
  }

  lemma RecordedHonoured(cs: seq<Region>, mem: Memory, host: Host, grant: nat -> nat)
    requires Recorded(cs) && SameBases(host, cs, grant)
    ensures Honoured(host, SavedAll(cs, mem), grant)
  {
    var rs := SavedAll(cs, mem);
    forall k | 0 <= k < |rs|
      ensures Paged(rs[k]) && rs[k].base == cs[k].base
    {
      assert cs[k] in cs;
    }
    forall i, j, a: nat | 0 <= i < j < |rs| && Covers(rs[i], a)
      ensures !Covers(rs[j], a)
    {
      assert Inside(cs[i], a);
      assert !Inside(cs[j], a);
    }
  }

  lemma RegionBack(host: Host, cs: seq<Region>, mem: Memory, grant: nat -> nat, k: nat)
    requires Recorded(cs) && SameBases(host, cs, grant) && k < |cs|
    requires Restore(host, SavedAll(cs, mem), grant).Some?
    ensures PageBack(Restore(host, SavedAll(cs, mem), grant).value.bytes, mem, cs[k])
  {
    var rs, g := SavedAll(cs, mem), cs[k];
    var after := Restore(host, rs, grant).value.bytes;
    RecordedHonoured(cs, mem, host, grant);
    assert rs[k] == MemoryMap.Saved(g, mem);
    forall a: nat | Inside(g, a)
      ensures after(a) == mem(a)
    {
      RestoreExact(host, rs, grant, a);
      assert HoldsByte(after, rs[k], a) && Covers(rs[k], a);
    }
  }

  // A committed region can be written where the load puts it.
  predicate WritableBack(host: Host, g: Region) {
    WritableSpan(host, g.base, g.size, g.prot)
  }

  lemma AllWritable(host: Host, cs: seq<Region>, mem: Memory)
    ensures (forall r :: r in SavedAll(cs, mem) ==> Writable(host, r)) <==>
      forall g :: g in cs ==> WritableBack(host, g)
  {
    var rs := SavedAll(cs, mem);
    forall g | g in cs && forall r :: r in rs ==> Writable(host, r)
      ensures WritableBack(host, g)
    {
      var k :| 0 <= k < |cs| && cs[k] == g;
      assert rs[k] in rs;
    }
    forall r | r in rs && forall g :: g in cs ==> WritableBack(host, g)
      ensures Writable(host, r)
    {
      var k :| 0 <= k < |rs| && rs[k] == r;
      assert cs[k] in cs;
    }
  }

  lemma RestoreRecordedIff(s: Snapshot, host: Host, grant: nat -> nat)
    requires Recorded(Committed(s.regions)) && SameBases(host, Committed(s.regions), grant)
    ensures Restore(host, SavedRegions(s), grant).Some? <==>
      forall g :: g in s.regions && g.committed ==> WritableBack(host, g)
  {
    var cs, mem := Committed(s.regions), s.host.bytes;
    RecordedHonoured(cs, mem, host, grant);
    RestoreHonouredIff(host, SavedRegions(s), grant);
    AllWritable(host, cs, mem);
  }

  lemma RegionsBack(s: Snapshot, host: Host, grant: nat -> nat)
    requires Recorded(Committed(s.regions)) && SameBases(host, Committed(s.regions), grant)
    requires Restore(host, SavedRegions(s), grant).Some?
    ensures var h1 := Restore(host, SavedRegions(s), grant).value;
      forall g :: g in s.regions && g.committed ==> PageBack(h1.bytes, s.host.bytes, g)
  {
    var cs := Committed(s.regions);
    forall g | g in s.regions && g.committed
      ensures PageBack(Restore(host, SavedRegions(s), grant).value.bytes, s.host.bytes, g)
    {
      var k :| 0 <= k < |cs| && cs[k] == g;
      RegionBack(host, cs, s.host.bytes, grant, k);
    }
  }

  // The outcome of a save: None when a page could not be read.
  function Stored(s: Snapshot): Option<seq<byte>> {
    if SaveReturns(s.host, s.regions) then Some(SaveFile(s)) else None
  }

  /** The machine is as it was: registers, list of regions, and the contents of each. */
  ghost predicate BackAsSaved(s: Snapshot, r: LoadOutcome) {
    && r.Loaded? && r.ctx == s.ctx && r.regions == SavedRegions(s)
    && forall g :: g in s.regions && g.committed ==> PageBack(r.host.bytes, s.host.bytes, g)
  }

  lemma BackIff(s: Snapshot, host: Host, grant: nat -> nat)
    requires WellSized(s.ctx) && |s.pad| == PAD
    requires Recorded(Committed(s.regions)) && SameBases(host, Committed(s.regions), grant)
    ensures BackAsSaved(s, LoadFile(SaveFile(s), host, grant)) <==>
      Holdable(s) && Restore(host, SavedRegions(s), grant).Some?
  {
    SaveLoadIff(s, host, grant);
    SaveLoads(s, host, grant);
    if Restore(host, SavedRegions(s), grant).Some? { RegionsBack(s, host, grant); }
  }

  /** Saving and then loading into `host` gives the machine back if and only if every committed page could
      be read, the format holds the map, and every committed region can be written: now, where its base
      is recorded already, and otherwise by its saved protection. */
  lemma SaveThenLoadIff(s: Snapshot, host: Host, grant: nat -> nat)
    requires WellSized(s.ctx) && |s.pad| == PAD
    requires Recorded(Committed(s.regions)) && SameBases(host, Committed(s.regions), grant)
    ensures Stored(s).Some? && BackAsSaved(s, LoadFile(Stored(s).value, host, grant)) <==>
      && SaveReturns(s.host, s.regions) && Holdable(s)
      && forall g :: g in s.regions && g.committed ==> WritableBack(host, g)
  {
    BackIff(s, host, grant);
    RestoreRecordedIff(s, host, grant);
  }

  // One region that cannot be written is enough.
  lemma ProtectedFaults(s: Snapshot, host: Host, grant: nat -> nat, g: Region)
    requires WellSized(s.ctx) && |s.pad| == PAD && Holdable(s)
    requires Recorded(Committed(s.regions)) && SameBases(host, Committed(s.regions), grant)
    requires g in s.regions && g.committed && !WritableBack(host, g)
    ensures LoadFile(SaveFile(s), host, grant) == AccessFault
  {
    SaveLoads(s, host, grant);
    RestoreRecordedIff(s, host, grant);
  }

  // ----- saves that do not load -----

  // Nothing is mapped.
  function Bare(): Host {
    Host([], a => Access(false, false), a => 0)
  }

  // One code page, as the loader leaves it: readable and executable.
  const CODE: Region := Region(0x40_0000, 0x4000, 5, 0, [], true)

  // The machine that runs it.
  function Running(): Host {
    MapAt(Bare(), CODE.base, CODE.size, CODE.prot)
  }

  lemma CodeIsReadOnly()
    ensures !WritableBack(Bare(), CODE) && !WritableBack(Running(), CODE) && Readable(Running(), CODE)
  {
    assert !AccessOf(5).write && AccessOf(5).read;
    assert Running().regions == [] + [Mapping(CODE.base, CODE.size)] == [Mapping(CODE.base, CODE.size)];
    assert Running().access(CODE.base) == AccessOf(5);
  }

  lemma OnlyCode(s: Snapshot)
    requires s.regions == [CODE]
    ensures Committed(s.regions) == [CODE] && Recorded([CODE]) && Holdable(s)
  {
    assert [CODE][1..] == [];
    assert Committed([CODE]) == [CODE] + Committed([]) == [CODE];
    OneRegion(CODE, s.host.bytes);
    EncodedRegionSize(CODE, s.host.bytes);
  }

  lemma CodeFaults(s: Snapshot, host: Host, grant: nat -> nat)
    requires WellSized(s.ctx) && |s.pad| == PAD && s.regions == [CODE]
    requires grant(0) == CODE.base && !WritableBack(host, CODE)
    ensures LoadFile(SaveFile(s), host, grant) == AccessFault
  {
    OnlyCode(s);
    assert SameBases(host, [CODE], grant) && CODE in s.regions;
    ProtectedFaults(s, host, grant, CODE);
  }

  /** A save that never loads: a machine with a single code page saves without an error, and the load
      faults in a fresh process, where the page is mapped with its saved protection, as well as in the
      machine that saved it, where the page is still protected. */
  lemma CodeSegmentIsLost(s: Snapshot, host: Host, grant: nat -> nat)
    requires WellSized(s.ctx) && |s.pad| == PAD && s.regions == [CODE] && s.host == Running()
    requires grant(0) == CODE.base && (host == Bare() || host == Running())
    ensures SaveReturns(s.host, s.regions) && Holdable(s)
    ensures LoadFile(SaveFile(s), host, grant) == AccessFault
  {
    OnlyCode(s);
    CodeIsReadOnly();
    CodeFaults(s, host, grant);
  }

  // Writable, but too large for the size field of the blob.
  const LARGE: Region := Region(0x1_0000_0000, 0x1_0000_0000, 3, 5, [], true)

  lemma LargeIsCut(s: Snapshot)
    requires s.regions == [LARGE]
    ensures StorableMap(s.regions) && !Holdable(s)
  {
    assert [LARGE][1..] == [];
    assert Committed([LARGE]) == [LARGE] + Committed([]) == [LARGE];
    StoredPageLength(LARGE, s.host.bytes);
  }

  /** Another: one writable region of 2^32 bytes, whose map has no room in its size field. */
  lemma LargeMapIsLost(s: Snapshot, host: Host, grant: nat -> nat)
    requires WellSized(s.ctx) && |s.pad| == PAD && s.regions == [LARGE]
    ensures StorableMap(s.regions) && !BackAsSaved(s, LoadFile(SaveFile(s), host, grant))
  {
    LargeIsCut(s);
    SaveLoads(s, host, grant);
  }
}
