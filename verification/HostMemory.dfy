/** Host memory as the memory manager and the operating system keep it; the save of a memory map from it
    and the load into it, region by region. A page carries a protection, and a copy that meets a page
    without the permission it needs never returns. */
module HostMemory {
  import opened Blobs
  import opened MemoryMap
  import opened Options
  import opened Turns
  import opened Words

  // Up to a multiple of PAGE_SIZE.
  function AlignUp(v: nat): nat {
    (v + 0x3fff) / 0x4000 * 0x4000
  }

  /** The least multiple of the page size that is not smaller. */
  lemma AlignUpMeans(v: nat)
    ensures AlignUp(v) % 0x4000 == 0 && v <= AlignUp(v) < v + 0x4000
  {
  }

  // Positions of the permissions in a protection word.
  const READ: nat := 0
  const WRITE: nat := 1

  datatype Access = Access(read: bool, write: bool)

  function AccessOf(prot: nat): Access {
    Access(Digit(prot, READ), Digit(prot, WRITE))
  }

  /** Bit 0 permits reading, bit 1 writing. */
  lemma AccessMeans(prot: nat)
    ensures AccessOf(prot) == Access(prot % 2 == 1, prot / 2 % 2 == 1)
  {
    ShrIsDivision(prot, READ);
    ShrIsDivision(prot, WRITE);
    assert Pow2(0) == 1 && Pow2(1) == 2;
  }

  // A region the memory manager has recorded.
  datatype Mapping = Mapping(base: nat, size: nat)

  // `access` is the protection of the page at an address; what is not mapped has none.
  datatype Host = Host(regions: seq<Mapping>, access: nat -> Access, bytes: Memory)

  // ----- the memory manager -----

  // FindRegion: some recorded region contains the address.
  predicate Tracked(regions: seq<Mapping>, a: nat) {
    exists m :: m in regions && m.base <= a < m.base + m.size
  }

  predicate CanRead(access: nat -> Access, base: nat, size: nat) {
    forall a: nat :: base <= a < base + size ==> access(a).read
  }

  predicate CanWrite(access: nat -> Access, base: nat, size: nat) {
    forall a: nat :: base <= a < base + size ==> access(a).write
  }

  function Protected(access: nat -> Access, base: nat, n: nat, prot: nat): nat -> Access {
    (a: nat) => if base <= a < base + n then AccessOf(prot) else access(a)
  }

  function Zeroed(m: Memory, base: nat, n: nat): Memory {
    (a: nat) => if base <= a < base + n then 0 else m(a)
  }

  // A fresh mapping is zeroed and has the requested protection.
  function MapAt(h: Host, base: nat, size: nat, prot: nat): Host {
    var n := AlignUp(size);
    Host(h.regions + [Mapping(base, n)], Protected(h.access, base, n, prot), Zeroed(h.bytes, base, n))
  }

  // memcpy of a page.
  function WriteAt(m: Memory, base: nat, page: seq<byte>): Memory {
    (a: nat) => if base <= a < base + |page| then page[a - base] else m(a)
  }

  // Where a saved region goes: to its base when a recorded region contains that, and otherwise to the
  // address that Map obtains. `given` is the operating system's answer, 0 when it has none; mapping
  // nothing fails as well. A region without a place is skipped.
  function Locate(h: Host, r: SavedRegion, given: nat): (nat, Host) {
    if Tracked(h.regions, r.base) then (r.base, h)
    else if given == 0 || r.size == 0 then (0, h)
    else (given, MapAt(h, given, r.size, r.prot))
  }

  predicate CopyReturns(h: Host, r: SavedRegion, given: nat) {
    var (base, h1) := Locate(h, r, given);
    base == 0 || r.size == 0 || CanWrite(h1.access, base, r.size)
  }

  // None: the copy faulted.
  function RestoreOne(h: Host, r: SavedRegion, given: nat): Option<Host> {
    var (base, h1) := Locate(h, r, given);
    if !CopyReturns(h, r, given) then None
    else if base == 0 || r.size == 0 then Some(h1)
    else Some(h1.(bytes := WriteAt(h1.bytes, base, r.page)))
  }

  // The place a saved region gets, 0 for none.
  function PlaceOf(h: Host, r: SavedRegion, given: nat): nat {
    if Tracked(h.regions, r.base) then r.base else if r.size == 0 then 0 else given
  }

  predicate Within(base: nat, n: nat, a: nat) {
    base <= a < base + n
  }

  /** One turn, in full. It faults exactly when it has a page to copy and a place for it that is not writable
      over its whole length: by the pages of a recorded place, by bit 1 of the saved protection for a new one.
      Otherwise a new place is recorded in whole pages, zeroed and protected as saved, then the page is copied,
      and nothing else changes. */
  lemma TurnMeans(h: Host, r: SavedRegion, given: nat)
    requires |r.page| == r.size
    ensures var place, tracked := PlaceOf(h, r, given), Tracked(h.regions, r.base);
      RestoreOne(h, r, given).None? <==>
      && place != 0 && r.size > 0
      && (if tracked then exists a: nat :: Within(place, r.size, a) && !h.access(a).write else r.prot / 2 % 2 == 0)
    ensures RestoreOne(h, r, given).Some? ==> var h1 := RestoreOne(h, r, given).value;
      var place, n := PlaceOf(h, r, given), AlignUp(r.size);
      var fresh_ := place != 0 && !Tracked(h.regions, r.base);
      && h1.regions == (if fresh_ then h.regions + [Mapping(place, n)] else h.regions)
      && (forall a: nat :: h1.access(a) ==
            if fresh_ && Within(place, n, a) then Access(r.prot % 2 == 1, r.prot / 2 % 2 == 1) else h.access(a))
      && (forall a: nat :: h1.bytes(a) ==
            if place != 0 && Within(place, r.size, a) then r.page[a - place]
            else if fresh_ && Within(place, n, a) then 0 else h.bytes(a))
  {
    AccessMeans(r.prot);
    AlignUpMeans(r.size);
    var (place, h1) := Locate(h, r, given);
    assert place == PlaceOf(h, r, given);
    if place != 0 && r.size > 0 {
      if CanWrite(h1.access, place, r.size) {
        assert Within(place, r.size, place) && h1.access(place).write;
      } else {
        var a: nat :| place <= a < place + r.size && !h1.access(a).write;
        assert Within(place, r.size, a);
      }
    }
  }

  // The turn for region k of a list; `grant(k)` is the answer it is given.
  function Turn(rs: seq<SavedRegion>, grant: nat -> nat): (Host, nat) -> Option<Host> {
    (h: Host, k: nat) => if k < |rs| then RestoreOne(h, rs[k], grant(k)) else None
  }

  function Restore(h: Host, rs: seq<SavedRegion>, grant: nat -> nat): Option<Host> {
    Run(h, Turn(rs, grant), |rs|)
  }

  // ----- when a restore returns -----

  // The host once the first n regions have been given their places, with nothing copied.
  function Placed(h: Host, rs: seq<SavedRegion>, grant: nat -> nat, n: nat): Host
    requires n <= |rs|
  {
    if n == 0 then h else Locate(Placed(h, rs, grant, n - 1), rs[n - 1], grant(n - 1)).1
  }

  // The place of region k, if it has one, can be written at its turn.
  predicate PlaceWritable(h: Host, rs: seq<SavedRegion>, grant: nat -> nat, k: nat)
    requires k < |rs|
  {
    CopyReturns(Placed(h, rs, grant, k), rs[k], grant(k))
  }

  ghost predicate SameLayout(h: Host, h': Host) {
    h.regions == h'.regions && h.access == h'.access
  }

  lemma LayoutDecides(h: Host, h': Host, r: SavedRegion, given: nat)
    requires SameLayout(h, h')
    ensures SameLayout(Locate(h, r, given).1, Locate(h', r, given).1)
    ensures CopyReturns(h, r, given) <==> CopyReturns(h', r, given)
  {
  }

  lemma CopyingKeepsLayout(h: Host, r: SavedRegion, given: nat)
    requires RestoreOne(h, r, given).Some?
    ensures SameLayout(RestoreOne(h, r, given).value, Locate(h, r, given).1)
  {
  }

  // A turn from the layout that region k meets.
  lemma TurnLayout(h: Host, rs: seq<SavedRegion>, grant: nat -> nat, h1: Host, k: nat)
    requires k < |rs| && SameLayout(h1, Placed(h, rs, grant, k))
    ensures var after := Turn(rs, grant)(h1, k);
      && (after.Some? <==> PlaceWritable(h, rs, grant, k))
      && (after.Some? ==> SameLayout(after.value, Placed(h, rs, grant, k + 1)))
  {
    var placed := Placed(h, rs, grant, k);
    LayoutDecides(h1, placed, rs[k], grant(k));
    assert Turn(rs, grant)(h1, k) == RestoreOne(h1, rs[k], grant(k));
    if PlaceWritable(h, rs, grant, k) {
      CopyingKeepsLayout(h1, rs[k], grant(k));
      assert Placed(h, rs, grant, k + 1) == Locate(placed, rs[k], grant(k)).1;
    }
  }

  /** Whatever addresses the operating system hands out, the load of a list of regions returns if and
      only if each of them with a place is writable there over its whole length. */
  lemma RestoreReturnsIff(h: Host, rs: seq<SavedRegion>, grant: nat -> nat)
    ensures Restore(h, rs, grant).Some? <==> forall k: nat :: k < |rs| ==> PlaceWritable(h, rs, grant, k)
  {
    var inv := (h1: Host, k: nat) => k <= |rs| && SameLayout(h1, Placed(h, rs, grant, k));
    var ok := (k: nat) => k < |rs| && PlaceWritable(h, rs, grant, k);
    forall h1: Host, k: nat | k < |rs|
      ensures ReturnsWhen(Turn(rs, grant), inv, ok, h1, k)
    {
      if inv(h1, k) { TurnLayout(h, rs, grant, h1, k); }
    }
    RunReturnsIff(h, Turn(rs, grant), |rs|, inv, ok);
    assert forall k: nat :: k < |rs| ==> (ok(k) <==> PlaceWritable(h, rs, grant, k));
  }

  // ----- when every region goes back to its base -----

  ghost predicate Covers(r: SavedRegion, a: nat) {
    r.base <= a < r.base + r.size
  }

  ghost predicate Disjoint(rs: seq<SavedRegion>) {
    forall i, j, a: nat :: 0 <= i < j < |rs| && Covers(rs[i], a) ==> !Covers(rs[j], a)
  }

  // As the memory manager records them: whole pages, not at zero, and with their contents.
  predicate Paged(r: SavedRegion) {
    |r.page| == r.size == AlignUp(r.size) && r.base != 0
  }

  // The operating system gives each region that needs it the base it had.
  ghost predicate Honoured(h: Host, rs: seq<SavedRegion>, grant: nat -> nat) {
    && Disjoint(rs)
    && (forall k :: 0 <= k < |rs| ==> Paged(rs[k]))
    && (forall k :: 0 <= k < |rs| && !Tracked(h.regions, rs[k].base) ==> grant(k) == rs[k].base)
  }

  // What can be checked before the load: a recorded place must be writable now, a new one by the
  // protection that was saved.
  predicate WritableSpan(h: Host, base: nat, size: nat, prot: nat) {
    size == 0 || if Tracked(h.regions, base) then CanWrite(h.access, base, size) else AccessOf(prot).write
  }

  predicate Writable(h: Host, r: SavedRegion) {
    WritableSpan(h, r.base, r.size, r.prot)
  }

  // A turn whose region goes to its base.
  predicate Goes(h: Host, r: SavedRegion, given: nat) {
    Paged(r) && (!Tracked(h.regions, r.base) ==> given == r.base)
  }

  lemma TurnReturnsIff(h: Host, r: SavedRegion, given: nat)
    requires Goes(h, r, given)
    ensures RestoreOne(h, r, given).Some? <==> Writable(h, r)
  {
    if r.size > 0 && !Tracked(h.regions, r.base) {
      var access := MapAt(h, given, r.size, r.prot).access;
      assert access(r.base) == AccessOf(r.prot);
    }
  }

  lemma NewRegionTracks(regions: seq<Mapping>, m: Mapping, a: nat)
    ensures Tracked(regions + [m], a) <==> Tracked(regions, a) || m.base <= a < m.base + m.size
  {
    assert m in regions + [m];
  }

  // The region is as writable in h1 as in h, and in h1 still recorded where it was in h.
  predicate Sees(h: Host, h1: Host, r: SavedRegion) {
    (Tracked(h.regions, r.base) ==> Tracked(h1.regions, r.base)) && (Writable(h1, r) <==> Writable(h, r))
  }

  lemma PlacingSeen(h: Host, r: SavedRegion, given: nat, other: SavedRegion)
    requires Goes(h, r, given) && Paged(other)
    requires forall a: nat :: Covers(r, a) ==> !Covers(other, a)
    ensures Sees(h, Locate(h, r, given).1, other)
  {
    var h1 := Locate(h, r, given).1;
    if h1 != h {
      NewRegionTracks(h.regions, Mapping(r.base, r.size), other.base);
      if other.size > 0 {
        assert Covers(other, other.base);
        assert Tracked(h1.regions, other.base) <==> Tracked(h.regions, other.base);
        assert forall a: nat :: other.base <= a < other.base + other.size ==> Covers(other, a);
        assert forall a: nat :: Covers(other, a) ==> h1.access(a) == h.access(a);
      }
    }
  }

  // Another region of the list sees after a turn what it saw before.
  lemma TurnSeen(h: Host, h1: Host, r: SavedRegion, given: nat, other: SavedRegion)
    requires Goes(h, r, given) && Paged(other) && RestoreOne(h, r, given) == Some(h1)
    requires forall a: nat :: Covers(r, a) ==> !Covers(other, a)
    ensures Sees(h, h1, other)
  {
    PlacingSeen(h, r, given, other);
    CopyingKeepsLayout(h, r, given);
  }

  // Before turn k the regions still to come see what they saw before the first.
  ghost predicate SeenFrom(h: Host, rs: seq<SavedRegion>, h1: Host, k: nat) {
    forall j :: k <= j < |rs| ==> Sees(h, h1, rs[j])
  }

  lemma GoesAt(h: Host, rs: seq<SavedRegion>, grant: nat -> nat, h1: Host, k: nat)
    requires Honoured(h, rs, grant) && k < |rs| && SeenFrom(h, rs, h1, k)
    ensures Goes(h1, rs[k], grant(k)) && Sees(h, h1, rs[k])
  {
  }

  lemma SeenAfterTurn(h: Host, rs: seq<SavedRegion>, grant: nat -> nat, h1: Host, k: nat, h2: Host)
    requires Honoured(h, rs, grant) && k < |rs| && SeenFrom(h, rs, h1, k)
    requires RestoreOne(h1, rs[k], grant(k)) == Some(h2)
    ensures SeenFrom(h, rs, h2, k + 1)
  {
    GoesAt(h, rs, grant, h1, k);
    forall j | k + 1 <= j < |rs|
      ensures Sees(h, h2, rs[j])
    {
      TurnSeen(h1, h2, rs[k], grant(k), rs[j]);
    }
  }

  lemma TurnWhenWritable(h: Host, rs: seq<SavedRegion>, grant: nat -> nat, h1: Host, k: nat)
    requires Honoured(h, rs, grant) && k < |rs| && SeenFrom(h, rs, h1, k)
    ensures var after := Turn(rs, grant)(h1, k);
      && (after.Some? <==> Writable(h, rs[k]))
      && (after.Some? ==> SeenFrom(h, rs, after.value, k + 1))
  {
    GoesAt(h, rs, grant, h1, k);
    TurnReturnsIff(h1, rs[k], grant(k));
    var after := Turn(rs, grant)(h1, k);
    if after.Some? { SeenAfterTurn(h, rs, grant, h1, k, after.value); }
  }

  lemma WritableAt(h: Host, rs: seq<SavedRegion>, ok: nat -> bool)
    requires forall k: nat :: k < |rs| ==> (ok(k) <==> Writable(h, rs[k]))
    ensures (forall k: nat :: k < |rs| ==> ok(k)) <==> forall r :: r in rs ==> Writable(h, r)
  {
    if forall k: nat :: k < |rs| ==> ok(k) {
      forall r | r in rs
        ensures Writable(h, r)
      {
        var k: nat :| k < |rs| && rs[k] == r;
      }
    }
  }

  /** With every region going back to its base, the load returns if and only if each region is writable:
      now, when its base is recorded, and by its saved protection when it has to be mapped. */
  lemma RestoreHonouredIff(h: Host, rs: seq<SavedRegion>, grant: nat -> nat)
    requires Honoured(h, rs, grant)
    ensures Restore(h, rs, grant).Some? <==> forall r :: r in rs ==> Writable(h, r)
  {
    ghost var inv := (h1: Host, k: nat) => SeenFrom(h, rs, h1, k);
    var ok := (k: nat) => k < |rs| && Writable(h, rs[k]);
    forall h1: Host, k: nat | k < |rs|
      ensures ReturnsWhen(Turn(rs, grant), inv, ok, h1, k)
    {
      if inv(h1, k) { TurnWhenWritable(h, rs, grant, h1, k); }
    }
    RunReturnsIff(h, Turn(rs, grant), |rs|, inv, ok);
    WritableAt(h, rs, ok);
  }

  ghost predicate HoldsByte(bytes: Memory, r: SavedRegion, a: nat)
    requires Paged(r)
  {
    Covers(r, a) ==> bytes(a) == r.page[a - r.base]
  }

  // What one turn does to the byte at `a`.
  lemma TurnBytes(h: Host, h1: Host, r: SavedRegion, given: nat, a: nat)
    requires Goes(h, r, given) && RestoreOne(h, r, given) == Some(h1)
    ensures HoldsByte(h1.bytes, r, a)
    ensures !Covers(r, a) ==> h1.bytes(a) == h.bytes(a)
  {
  }

  // The byte at `a` once the first k regions are back.
  ghost predicate ByteAfter(h: Host, rs: seq<SavedRegion>, bytes: Memory, k: nat, a: nat)
    requires k <= |rs| && forall i :: 0 <= i < |rs| ==> Paged(rs[i])
  {
    && (forall i :: 0 <= i < k ==> HoldsByte(bytes, rs[i], a))
    && ((forall i :: 0 <= i < k ==> !Covers(rs[i], a)) ==> bytes(a) == h.bytes(a))
  }

  lemma ByteAfterTurn(h: Host, rs: seq<SavedRegion>, grant: nat -> nat, h1: Host, k: nat, h2: Host, a: nat)
    requires Honoured(h, rs, grant) && k < |rs|
    requires SeenFrom(h, rs, h1, k) && ByteAfter(h, rs, h1.bytes, k, a)
    requires RestoreOne(h1, rs[k], grant(k)) == Some(h2)
    ensures ByteAfter(h, rs, h2.bytes, k + 1, a)
  {
    GoesAt(h, rs, grant, h1, k);
    TurnBytes(h1, h2, rs[k], grant(k), a);
  }

  /** Once restored, every saved byte is back where it was and every other byte is untouched. */
  lemma RestoreExact(h: Host, rs: seq<SavedRegion>, grant: nat -> nat, a: nat)
    requires Honoured(h, rs, grant) && Restore(h, rs, grant).Some?
    ensures ByteAfter(h, rs, Restore(h, rs, grant).value.bytes, |rs|, a)
  {
    ghost var inv := (h1: Host, k: nat) =>
      k <= |rs| && SeenFrom(h, rs, h1, k) && ByteAfter(h, rs, h1.bytes, k, a);
    forall h1: Host, k: nat | k < |rs|
      ensures KeptBy(Turn(rs, grant), inv, h1, k)
    {
      var h2 := Turn(rs, grant)(h1, k);
      if inv(h1, k) && h2.Some? {
        SeenAfterTurn(h, rs, grant, h1, k, h2.value);
        ByteAfterTurn(h, rs, grant, h1, k, h2.value, a);
      }
    }
    RunKeeps(h, Turn(rs, grant), |rs|, inv);
  }

  // ----- saving a memory map -----

  predicate Readable(h: Host, r: Region) {
    r.size > 0 && r.base != 0 ==> CanRead(h.access, r.base, r.size)
  }

  // The save of a memory map returns when every page it stores can be read.
  predicate SaveReturns(h: Host, rs: seq<Region>) {
    forall r :: r in rs && r.committed ==> Readable(h, r)
  }

  // ----- loading a memory map -----

  // Broken: the blob ends early. Fault: a copy met a page without write permission.
  datatype MapLoad = Broken | Fault | Restored(regions: seq<SavedRegion>, rest: seq<byte>, host: Host)

  // Each region is copied before the next one is read, so a fault comes before the end of the bytes.
  function Outcome(h: Host, p: Parse, grant: nat -> nat): MapLoad {
    match Restore(h, p.regions, grant)
    case None => Fault
    case Some(h1) => if p.end.None? then Broken else Restored(p.regions, p.end.value, h1)
  }

  function LoadMap(s: seq<byte>, h: Host, grant: nat -> nat): MapLoad {
    match ReadField(s, SIZE32)
    case None => Broken
    case Some((count, rest)) => Outcome(h, ParseRegions(rest, count), grant)
  }

  /** A blob that decodes is restored as a whole, or the load faults; another one does not load. */
  lemma LoadMapDecodes(s: seq<byte>, h: Host, grant: nat -> nat)
    ensures DecodeMap(s).None? ==> !LoadMap(s, h, grant).Restored?
    ensures DecodeMap(s).Some? ==>
      LoadMap(s, h, grant) == Outcome(h, Parse(DecodeMap(s).value.0, Some(DecodeMap(s).value.1)), grant)
  {
  }

  /** What a load makes of a (possibly cut) saved map: the regions that were saved, if they are storable and
      nothing was cut; otherwise never those regions. */
  lemma SavedMapLoads(regions: seq<Region>, mem: Memory, n: nat, h: Host, grant: nat -> nat)
    requires n <= |EncodeMap(regions, mem)|
    ensures var saved := SavedAll(Committed(regions), mem);
      var d := LoadMap(EncodeMap(regions, mem)[..n], h, grant);
      if StorableMap(regions) && n == |EncodeMap(regions, mem)| then d == Outcome(h, Parse(saved, Some([])), grant)
      else d.Restored? ==> d.regions != saved
  {
    MapRestoredIff(regions, mem, n);
    LoadMapDecodes(EncodeMap(regions, mem)[..n], h, grant);
  }

  // ----- the operations -----

  class HostState {
    var regions: seq<Mapping>
    var access: nat -> Access
    var bytes: Memory

    constructor (h: Host)
      ensures View() == h
    {
      regions, access, bytes := h.regions, h.access, h.bytes;
    }

    function View(): Host
      reads this
    {
      Host(regions, access, bytes)
    }

    method FindRegion(a: nat) returns (found: bool)
      ensures found <==> Tracked(regions, a)
    {
      for i := 0 to |regions|
        invariant forall m :: m in regions[..i] ==> !(m.base <= a < m.base + m.size)
      {
        if regions[i].base <= a < regions[i].base + regions[i].size { return true; }
      }
      found := false;
    }

    // Map; `given` is the address the operating system answers with, or 0.
    method Map(size: nat, prot: nat, given: nat) returns (base: nat)
      modifies this
      ensures base == if size == 0 then 0 else given
      ensures View() == if base == 0 then old(View()) else MapAt(old(View()), given, size, prot)
      ensures base == 0 ==> View() == old(View())
      ensures base != 0 ==> exists n: nat ::
        && n % 0x4000 == 0 && size <= n < size + 0x4000
        && regions == old(regions) + [Mapping(base, n)]
        && (forall a: nat :: access(a) ==
              if Within(base, n, a) then Access(prot % 2 == 1, prot / 2 % 2 == 1) else old(access)(a))
        && (forall a: nat :: bytes(a) == if Within(base, n, a) then 0 else old(bytes)(a))
    {
      AccessMeans(prot);
      AlignUpMeans(size);
      if given == 0 || size == 0 { return 0; }
      var h := MapAt(View(), given, size, prot);
      regions, access, bytes := h.regions, h.access, h.bytes;
      base := given;
    }

    // The copy of a page out of host memory: it returns only if every byte of it is readable.
    method CopyOut(base: nat, size: nat) returns (ok: bool, page: seq<byte>)
      ensures ok <==> CanRead(access, base, size)
      ensures ok ==> page == PageAt(bytes, base, size)
    {
      ok := CanRead(access, base, size);
      page := if ok then PageAt(bytes, base, size) else [];
    }

    // memcpy into host memory: it returns only if every page it touches is writable.
    method CopyIn(base: nat, page: seq<byte>) returns (ok: bool)
      modifies this
      ensures ok <==> CanWrite(old(access), base, |page|)
      ensures View() == if ok then old(View()).(bytes := WriteAt(old(bytes), base, page)) else old(View())
    {
      ok := CanWrite(access, base, |page|);
      if ok { bytes := WriteAt(bytes, base, page); }
    }
  }

  // The writes for one committed region.
  method WriteRegion(blob: Blob, r: Region, host: HostState) returns (ok: bool)
    modifies blob
    ensures ok <==> Readable(host.View(), r)
    ensures ok ==> blob.data == old(blob.data) + EncodeRegion(r, host.bytes)
  {
    ghost var before := blob.data;
    blob.WriteT(r.base, SIZE64);
    blob.WriteT(r.size, SIZE64);
    blob.WriteT(r.prot, SIZE32);
    blob.WriteT(r.kind, SIZE8);
    blob.WriteStr(r.tag);
    ok := true;
    if r.size > 0 && r.base != 0 {
      var page;
      ok, page := host.CopyOut(r.base, r.size);
      if !ok { return; }
      blob.Write(page);
    } else {
      assert blob.data + [] == blob.data;
    }
    Flatten6(before, Le(r.base, SIZE64), Le(r.size, SIZE64), Le(r.prot, SIZE32), Le(r.kind, SIZE8),
             EncodeStr(r.tag), Page(r, host.bytes));
  }

  // What a turn of the loop over all regions appends.
  function Piece(r: Region, mem: Memory): seq<byte> {
    if r.committed then EncodeRegion(r, mem) else []
  }

  method WriteTurn(blob: Blob, r: Region, host: HostState) returns (ok: bool)
    modifies blob
    ensures ok <==> r.committed ==> Readable(host.View(), r)
    ensures ok ==> blob.data == old(blob.data) + Piece(r, host.bytes)
  {
    ok := true;
    if r.committed {
      ok := WriteRegion(blob, r, host);
    } else {
      assert blob.data + [] == blob.data;
    }
  }

  lemma SaveReturnsStep(h: Host, rs: seq<Region>, k: nat)
    requires k < |rs|
    ensures SaveReturns(h, rs[..k+1]) <==> SaveReturns(h, rs[..k]) && (rs[k].committed ==> Readable(h, rs[k]))
    ensures SaveReturns(h, rs) ==> rs[k].committed ==> Readable(h, rs[k])
  {
    assert rs[..k+1] == rs[..k] + [rs[k]];
    assert rs[k] in rs;
  }

  // The first k regions have been written behind what was there.
  ghost predicate Written(head: seq<byte>, data: seq<byte>, rs: seq<Region>, k: nat, h: Host) {
    k <= |rs| && data == head + EncodePart(rs, k, h.bytes) && SaveReturns(h, rs[..k])
  }

  lemma WrittenStart(head: seq<byte>, rs: seq<Region>, h: Host)
    ensures Written(head, head, rs, 0, h)
  {
    EncodePartEnds(rs, h.bytes);
    assert head + [] == head;
  }

  lemma WrittenNext(head: seq<byte>, data: seq<byte>, rs: seq<Region>, k: nat, h: Host)
    requires Written(head, data, rs, k, h) && k < |rs|
    requires rs[k].committed ==> Readable(h, rs[k])
    ensures Written(head, data + Piece(rs[k], h.bytes), rs, k + 1, h)
  {
    SaveReturnsStep(h, rs, k);
    EncodePartStep(rs, k, h.bytes);
    Assoc(head, EncodePart(rs, k, h.bytes), Piece(rs[k], h.bytes));
  }

  lemma WrittenEnd(before: seq<byte>, n: nat, data: seq<byte>, rs: seq<Region>, h: Host)
    requires n == |Committed(rs)| % U32 && Written(before + Le(n, SIZE32), data, rs, |rs|, h)
    ensures SaveReturns(h, rs) && data == before + EncodeMap(rs, h.bytes)
  {
    assert rs[..|rs|] == rs;
    EncodePartEnds(rs, h.bytes);
    Assoc(before, Le(n, SIZE32), EncodeRegions(Committed(rs), h.bytes));
  }

  method SerializeMemoryMap(blob: Blob, regions: seq<Region>, host: HostState) returns (ok: bool)
    modifies blob
    ensures ok <==> SaveReturns(host.View(), regions)
    ensures ok ==> blob.data == old(blob.data) + EncodeMap(regions, host.bytes)
  {
    ghost var before, h := blob.data, host.View();
    var n := CountCommitted(regions);
    blob.WriteT(n, SIZE32);
    ghost var head := blob.data;
    WrittenStart(head, regions, h);
    for k := 0 to |regions|
      invariant Written(head, blob.data, regions, k, h)
    {
      ghost var data := blob.data;
      SaveReturnsStep(h, regions, k);
      ok := WriteTurn(blob, regions[k], host);
      if !ok { return; }
      WrittenNext(head, data, regions, k, h);
    }
    WrittenEnd(before, n, blob.data, regions, h);
    ok := true;
  }

  // The reads for one region.
  method ReadRegion(reader: BlobReader) returns (ok: bool, r: SavedRegion)
    requires reader.offset <= |reader.data|
    modifies reader
    ensures reader.offset <= |reader.data|
    ensures ok <==> DecodeRegion(old(reader.Left())).Some?
    ensures ok ==> (r, reader.Left()) == DecodeRegion(old(reader.Left())).value
  {
    var base, size, prot, kind, tag, page;
    r := SavedRegion(0, 0, 0, 0, [], []);
    ok, base := reader.ReadT(SIZE64);
    if !ok { return; }
    ok, size := reader.ReadT(SIZE64);
    if !ok { return; }
    ok, prot := reader.ReadT(SIZE32);
    if !ok { return; }
    ok, kind := reader.ReadT(SIZE8);
    if !ok { return; }
    ok, tag := reader.ReadStr();
    if !ok { return; }
    page := [];
    if size > 0 {
      ok, page := reader.Read(size);
      if !ok { return; }
    } else {
      assert reader.Left()[..0] == [] && reader.Left()[0..] == reader.Left();
    }
    r := SavedRegion(base, size, prot, kind, tag, page);
  }

  // The second half of a turn: find or map the place of the region and copy its page back.
  method PutBack(host: HostState, r: SavedRegion, given: nat) returns (ok: bool)
    requires |r.page| == r.size
    modifies host
    ensures ok <==> RestoreOne(old(host.View()), r, given).Some?
    ensures ok ==> host.View() == RestoreOne(old(host.View()), r, given).value
  {
    var base := r.base;
    var existing := host.FindRegion(base);
    if !existing {
      base := host.Map(r.size, r.prot, given);
      if base == 0 { return true; }
    }
    ok := true;
    if r.size > 0 && base != 0 { ok := host.CopyIn(base, r.page); }
  }

  // How the loop ended.
  datatype Ending = Complete | Cut | Faulted

  ghost predicate Ends(d: MapLoad, e: Ending, left: seq<byte>, host: Host) {
    match e
    case Complete => d.Restored? && d.rest == left && d.host == host
    case Cut => d == Broken
    case Faulted => d == Fault
  }

  // k regions of the goal have been restored, and the bytes left hold what is still to be read of it.
  ghost predicate Underway(h0: Host, k: nat, more: Parse, goal: Parse, h: Host, grant: nat -> nat) {
    && k <= |goal.regions|
    && goal.regions[k..] == more.regions
    && goal.end == more.end
    && Run(h0, Turn(goal.regions, grant), k) == Some(h)
  }

  // The same with n regions to read from the bytes left.
  ghost predicate Reading(h0: Host, k: nat, left: seq<byte>, n: nat, goal: Parse, h: Host, grant: nat -> nat) {
    Underway(h0, k, ParseRegions(left, n), goal, h, grant)
  }

  lemma UnderwayStart(h: Host, goal: Parse, grant: nat -> nat)
    ensures Underway(h, 0, goal, goal, h, grant)
  {
  }

  lemma UnderwayCut(h0: Host, k: nat, goal: Parse, h: Host, grant: nat -> nat)
    requires Underway(h0, k, Parse([], None), goal, h, grant)
    ensures Outcome(h0, goal, grant) == Broken
  {
    assert |goal.regions[k..]| == 0;
  }

  lemma UnderwayEnd(h0: Host, k: nat, left: seq<byte>, goal: Parse, h: Host, grant: nat -> nat)
    requires Underway(h0, k, Parse([], Some(left)), goal, h, grant)
    ensures Ends(Outcome(h0, goal, grant), Complete, left, h)
  {
    assert |goal.regions[k..]| == 0;
  }

  lemma UnderwayFault(h0: Host, k: nat, r: SavedRegion, more: Parse, goal: Parse, h: Host, grant: nat -> nat)
    requires Underway(h0, k, Parse([r] + more.regions, more.end), goal, h, grant)
    requires RestoreOne(h, r, grant(k)).None?
    ensures Outcome(h0, goal, grant) == Fault
  {
    assert goal.regions[k..][0] == r;
    StoppedStays(h0, Turn(goal.regions, grant), k + 1, |goal.regions|);
  }

  lemma UnderwayNext(
    h0: Host, k: nat, r: SavedRegion, more: Parse, goal: Parse, h: Host, h1: Host, grant: nat -> nat)
    requires Underway(h0, k, Parse([r] + more.regions, more.end), goal, h, grant)
    requires RestoreOne(h, r, grant(k)) == Some(h1)
    ensures Underway(h0, k + 1, more, goal, h1, grant)
  {
    assert goal.regions[k..][0] == r;
    assert goal.regions[k + 1..] == goal.regions[k..][1..];
  }

  // One turn: read a region, find or map its place, copy its page back.
  method LoadNext(reader: BlobReader, host: HostState, given: nat) returns (e: Ending, ghost r: SavedRegion)
    requires reader.offset <= |reader.data|
    modifies reader, host
    ensures reader.offset <= |reader.data|
    ensures e == Cut <==> DecodeRegion(old(reader.Left())).None?
    ensures e != Cut ==> DecodeRegion(old(reader.Left())) == Some((r, reader.Left()))
    ensures e == Faulted ==> RestoreOne(old(host.View()), r, given).None?
    ensures e == Complete ==> RestoreOne(old(host.View()), r, given) == Some(host.View())
  {
    var ok, region := ReadRegion(reader);
    r := region;
    if !ok { return Cut, r; }
    ok := PutBack(host, region, given);
    e := if ok then Complete else Faulted;
  }

  // The same turn, against the whole of what is to be read.
  method LoadTurn(reader: BlobReader, host: HostState, k: nat, grant: nat -> nat,
                  ghost n: nat, ghost h0: Host, ghost goal: Parse) returns (e: Ending)
    requires reader.offset <= |reader.data| && n > 0
    requires Reading(h0, k, reader.Left(), n, goal, host.View(), grant)
    modifies reader, host
    ensures reader.offset <= |reader.data|
    ensures e == Complete ==> Reading(h0, k + 1, reader.Left(), n - 1, goal, host.View(), grant)
    ensures e != Complete ==> Ends(Outcome(h0, goal, grant), e, reader.Left(), host.View())
  {
    ghost var h, left := host.View(), reader.Left();
    ghost var r;
    e, r := LoadNext(reader, host, grant(k));
    if e == Cut {
      UnderwayCut(h0, k, goal, h, grant);
      return;
    }
    ghost var more := ParseRegions(reader.Left(), n - 1);
    ParseStep(left, n, r, reader.Left());
    if e == Faulted {
      UnderwayFault(h0, k, r, more, goal, h, grant);
    } else {
      UnderwayNext(h0, k, r, more, goal, h, host.View(), grant);
    }
  }

  method LoadCounted(reader: BlobReader, host: HostState, count: nat, grant: nat -> nat) returns (e: Ending)
    requires reader.offset <= |reader.data|
    modifies reader, host
    ensures Ends(
      Outcome(old(host.View()), ParseRegions(old(reader.Left()), count), grant), e, reader.Left(), host.View())
  {
    ghost var h0, goal := host.View(), ParseRegions(reader.Left(), count);
    ghost var n := count;
    UnderwayStart(h0, goal, grant);
    for k := 0 to count
      invariant reader.offset <= |reader.data| && n == count - k
      invariant Reading(h0, k, reader.Left(), n, goal, host.View(), grant)
    {
      e := LoadTurn(reader, host, k, grant, n, h0, goal);
      if e != Complete { return; }
      n := n - 1;
    }
    UnderwayEnd(h0, count, reader.Left(), goal, host.View(), grant);
    e := Complete;
  }

  method DeserializeMemoryMap(reader: BlobReader, host: HostState, grant: nat -> nat) returns (e: Ending)
    requires reader.offset <= |reader.data|
    modifies reader, host
    ensures Ends(LoadMap(old(reader.Left()), old(host.View()), grant), e, reader.Left(), host.View())
  {
    var ok, count := reader.ReadT(SIZE32);
    if !ok { return Cut; }
    e := LoadCounted(reader, host, count, grant);
  }
}
