/** The memory-map blob of a save state: every committed region with its contents. */
module MemoryMap {
  import opened Options
  import opened Words
  import opened Blobs

  datatype Region = Region(base: u64, size: u64, prot: u32, kind: byte, tag: seq<byte>, committed: bool)
  datatype SavedRegion = SavedRegion(base: nat, size: nat, prot: nat, kind: nat, tag: seq<byte>, page: seq<byte>)

  // Host memory as the save reads it.
  type Memory = nat -> byte

  function PageAt(mem: Memory, base: nat, size: nat): (p: seq<byte>)
    ensures |p| == size
  {
    seq(size, i requires 0 <= i < size => mem(base + i))
  }

  function Page(r: Region, mem: Memory): seq<byte> {
    if r.size > 0 && r.base != 0 then PageAt(mem, r.base, r.size) else []
  }

  function EncodeRegion(r: Region, mem: Memory): seq<byte> {
    Le(r.base, SIZE64) + (Le(r.size, SIZE64) + (Le(r.prot, SIZE32) + (Le(r.kind, SIZE8) +
      (EncodeStr(r.tag) + Page(r, mem)))))
  }

  function EncodeRegions(rs: seq<Region>, mem: Memory): seq<byte> {
    if rs == [] then [] else EncodeRegion(rs[0], mem) + EncodeRegions(rs[1..], mem)
  }

  function Committed(rs: seq<Region>): (cs: seq<Region>)
    ensures forall r :: r in cs <==> r in rs && r.committed
  {
    if rs == [] then [] else (if rs[0].committed then [rs[0]] else []) + Committed(rs[1..])
  }

  function EncodeMap(rs: seq<Region>, mem: Memory): seq<byte> {
    Le(|Committed(rs)| % U32, SIZE32) + EncodeRegions(Committed(rs), mem)
  }

  function Saved(r: Region, mem: Memory): SavedRegion {
    SavedRegion(r.base, r.size, r.prot, r.kind, r.tag, PageAt(mem, r.base, r.size))
  }

  function SavedAll(rs: seq<Region>, mem: Memory): seq<SavedRegion> {
    seq(|rs|, i requires 0 <= i < |rs| => Saved(rs[i], mem))
  }

  function DecodeRegion(s: seq<byte>): Option<(SavedRegion, seq<byte>)> {
    var (base, s1) :- ReadField(s, SIZE64);
    var (size, s2) :- ReadField(s1, SIZE64);
    var (prot, s3) :- ReadField(s2, SIZE32);
    var (kind, s4) :- ReadField(s3, SIZE8);
    var (tag, s5) :- DecodeStr(s4);
    var (page, s6) :- ReadBytes(s5, size);
    Some((SavedRegion(base, size, prot, kind, tag, page), s6))
  }

  lemma RegionFront(s: seq<byte>)
    requires |s| >= 21
    ensures ReadField(s, SIZE64) == Some((FromLe(s[..8]), s[8..]))
    ensures ReadField(s[8..], SIZE64) == Some((FromLe(s[8..16]), s[16..]))
    ensures ReadField(s[16..], SIZE32) == Some((FromLe(s[16..20]), s[20..]))
    ensures ReadField(s[20..], SIZE8) == Some((FromLe(s[20..21]), s[21..]))
  {
    FieldAt(s, 8, 8);
    FieldAt(s, 16, 4);
    FieldAt(s, 20, 1);
  }

  lemma RegionTag(s: seq<byte>)
    requires |s| >= 25 && |s| >= 25 + FromLe(s[21..25])
    ensures var n := FromLe(s[21..25]); DecodeStr(s[21..]) == Some((s[25..25 + n], s[25 + n..]))
  {
    FieldAt(s, 21, 4);
    PieceAt(s, 25, FromLe(s[21..25]));
  }

  /** Where each field of a region is. */
  lemma RegionOffsets(s: seq<byte>)
    requires |s| >= 25 && |s| >= 25 + FromLe(s[21..25]) + FromLe(s[8..16])
    ensures var size, n := FromLe(s[8..16]), FromLe(s[21..25]);
      DecodeRegion(s) == Some((
        SavedRegion(FromLe(s[..8]), size, FromLe(s[16..20]), FromLe(s[20..21]), s[25..25 + n],
                    s[25 + n..25 + n + size]), s[25 + n + size..]))
  {
    RegionFront(s);
    RegionTag(s);
    PieceAt(s, 25 + FromLe(s[21..25]), FromLe(s[8..16]));
  }

  // The bytes that a list of regions occupies once their pages are stored.
  function Extent(rs: seq<SavedRegion>): nat {
    if rs == [] then 0 else 25 + |rs[0].tag| + rs[0].size + Extent(rs[1..])
  }

  lemma DecodeRegionExtent(s: seq<byte>)
    requires DecodeRegion(s).Some?
    ensures var (r, rest) := DecodeRegion(s).value;
      |s| == 25 + |r.tag| + r.size + |rest| && |r.tag| < U32
  {
    FromLeBound(s[21..][..SIZE32]);
    Pow256Sizes();
    assert s[8..][8..][4..][1..] == s[21..];
  }

  lemma ExtentCons(r: SavedRegion, rs: seq<SavedRegion>)
    ensures Extent([r] + rs) == 25 + |r.tag| + r.size + Extent(rs)
  {
    assert ([r] + rs)[1..] == rs;
  }

  // The regions that can be read one after the other, and the bytes after the last; None when the
  // bytes end before all of them have been read.
  datatype Parse = Parse(regions: seq<SavedRegion>, end: Option<seq<byte>>)

  function ParseRegions(s: seq<byte>, count: nat): (p: Parse)
    ensures p.end.Some? ==> |p.regions| == count && |s| == Extent(p.regions) + |p.end.value|
    ensures forall r :: r in p.regions ==> |r.tag| < U32
    decreases count
  {
    if count == 0 then Parse([], Some(s))
    else if DecodeRegion(s).None? then Parse([], None)
    else
      var (r, rest) := DecodeRegion(s).value;
      var more := ParseRegions(rest, count - 1);
      DecodeRegionExtent(s);
      ExtentCons(r, more.regions);
      Parse([r] + more.regions, more.end)
  }

  lemma ParseStep(s: seq<byte>, count: nat, r: SavedRegion, rest: seq<byte>)
    requires count > 0 && DecodeRegion(s) == Some((r, rest))
    ensures var more := ParseRegions(rest, count - 1);
      ParseRegions(s, count) == Parse([r] + more.regions, more.end)
  {
  }

  function DecodeMap(s: seq<byte>): Option<(seq<SavedRegion>, seq<byte>)> {
    var (count, rest) :- ReadField(s, SIZE32);
    var p := ParseRegions(rest, count);
    if p.end.None? then None else Some((p.regions, p.end.value))
  }

  /** The regions whose encoding a load can follow: a tag length that fits its prefix, and
      a base that is not null unless there is nothing to store. */
  predicate Storable(r: Region) {
    |r.tag| < U32 && (r.size > 0 ==> r.base != 0)
  }

  lemma Assoc6(a: seq<byte>, b: seq<byte>, c: seq<byte>, d: seq<byte>, e: seq<byte>, f: seq<byte>, rest: seq<byte>)
    ensures (a + (b + (c + (d + (e + f))))) + rest == a + (b + (c + (d + (e + (f + rest)))))
  {
    Assoc(e, f, rest);
    Assoc(d, e + f, rest);
    Assoc(c, d + (e + f), rest);
    Assoc(b, c + (d + (e + f)), rest);
    Assoc(a, b + (c + (d + (e + f))), rest);
  }

  lemma RegionRead(r: Region, mem: Memory, rest: seq<byte>)
    requires Storable(r)
    ensures DecodeRegion(EncodeRegion(r, mem) + rest) == Some((Saved(r, mem), rest))
  {
    var page := Page(r, mem);
    assert page == PageAt(mem, r.base, r.size);
    var s5 := page + rest;
    var s4 := EncodeStr(r.tag) + s5;
    var s3 := Le(r.kind, SIZE8) + s4;
    var s2 := Le(r.prot, SIZE32) + s3;
    var s1 := Le(r.size, SIZE64) + s2;
    Assoc6(Le(r.base, SIZE64), Le(r.size, SIZE64), Le(r.prot, SIZE32), Le(r.kind, SIZE8), EncodeStr(r.tag), page, rest);
    FieldRead(r.base, SIZE64, s1);
    FieldRead(r.size, SIZE64, s2);
    FieldRead(r.prot, SIZE32, s3);
    FieldRead(r.kind, SIZE8, s4);
    StrRead(r.tag, s5);
    PieceRead(page, rest);
  }

  lemma OneRegion(r: Region, mem: Memory)
    requires r.committed
    ensures EncodeMap([r], mem) == Le(1, SIZE32) + EncodeRegion(r, mem)
  {
    assert [r][1..] == [];
    assert Committed([r]) == [r] + Committed([]) == [r];
    assert EncodeRegions([r], mem) == EncodeRegion(r, mem) + [] == EncodeRegion(r, mem);
    SmallModulus(1);
  }

  lemma EncodedRegionSize(r: Region, mem: Memory)
    ensures |EncodeRegion(r, mem)| == 25 + |r.tag| % U32 + |Page(r, mem)|
  {
  }

  // One stored region takes more room than its size.
  lemma StoredPageLength(r: Region, mem: Memory)
    requires r.committed && r.base != 0
    ensures |EncodeMap([r], mem)| > r.size
  {
    OneRegion(r, mem);
    EncodedRegionSize(r, mem);
  }

  lemma SavedAllUnfold(rs: seq<Region>, mem: Memory)
    requires rs != []
    ensures SavedAll(rs, mem) == [Saved(rs[0], mem)] + SavedAll(rs[1..], mem)
    ensures SavedAll(rs, mem)[1..] == SavedAll(rs[1..], mem)
  {
  }

  lemma {:induction false} RegionsRead(rs: seq<Region>, mem: Memory, rest: seq<byte>)
    requires forall r :: r in rs ==> Storable(r)
    ensures ParseRegions(EncodeRegions(rs, mem) + rest, |rs|) == Parse(SavedAll(rs, mem), Some(rest))
    decreases |rs|
  {
    if rs == [] {
      assert SavedAll(rs, mem) == [];
      assert EncodeRegions(rs, mem) + rest == rest;
    } else {
      var here, more := EncodeRegion(rs[0], mem), EncodeRegions(rs[1..], mem);
      Assoc(here, more, rest);
      RegionRead(rs[0], mem, more + rest);
      RegionsRead(rs[1..], mem, rest);
      ParseStep(EncodeRegions(rs, mem) + rest, |rs|, Saved(rs[0], mem), more + rest);
      SavedAllUnfold(rs, mem);
    }
  }

  /** What a load can follow: every region storable, and a count that fits its field. */
  ghost predicate StorableMap(rs: seq<Region>) {
    |Committed(rs)| < U32 && forall r :: r in rs && r.committed ==> Storable(r)
  }

  lemma CountedRead(cs: seq<Region>, mem: Memory, rest: seq<byte>)
    requires |cs| < U32 && forall r :: r in cs ==> Storable(r)
    ensures DecodeMap(Le(|cs|, SIZE32) + EncodeRegions(cs, mem) + rest) == Some((SavedAll(cs, mem), rest))
  {
    Assoc(Le(|cs|, SIZE32), EncodeRegions(cs, mem), rest);
    FieldRead(|cs|, SIZE32, EncodeRegions(cs, mem) + rest);
    RegionsRead(cs, mem, rest);
  }

  lemma MapRead(rs: seq<Region>, mem: Memory, rest: seq<byte>)
    requires StorableMap(rs)
    ensures DecodeMap(EncodeMap(rs, mem) + rest) == Some((SavedAll(Committed(rs), mem), rest))
  {
    var cs := Committed(rs);
    SmallModulus(|cs|);
    CountedRead(cs, mem, rest);
    assert EncodeMap(rs, mem) == Le(|cs|, SIZE32) + EncodeRegions(cs, mem);
  }

  // ----- the converse: what decoding consumes -----

  lemma EncodedRegionLength(r: Region, mem: Memory)
    ensures |EncodeRegion(r, mem)| <= 25 + |r.tag| + r.size
    ensures |EncodeRegion(r, mem)| == 25 + |r.tag| + r.size ==> Storable(r)
  {
    EncodedRegionSize(r, mem);
    TagRemainder(|r.tag|);
  }

  lemma TagRemainder(n: nat)
    ensures n % U32 <= n && (n % U32 == n ==> n < U32)
  {
  }

  lemma {:induction false} EncodedNoLonger(rs: seq<Region>, mem: Memory)
    ensures |EncodeRegions(rs, mem)| <= Extent(SavedAll(rs, mem))
    ensures |EncodeRegions(rs, mem)| == Extent(SavedAll(rs, mem)) ==> forall r :: r in rs ==> Storable(r)
    decreases |rs|
  {
    if rs != [] {
      EncodedRegionLength(rs[0], mem);
      EncodedNoLonger(rs[1..], mem);
      SavedAllUnfold(rs, mem);
      ExtentUnfold(rs, mem);
      assert rs == [rs[0]] + rs[1..];
    }
  }

  lemma ExtentUnfold(rs: seq<Region>, mem: Memory)
    requires rs != []
    ensures Extent(SavedAll(rs, mem)) == 25 + |rs[0].tag| + rs[0].size + Extent(SavedAll(rs[1..], mem))
    ensures |EncodeRegions(rs, mem)| == |EncodeRegion(rs[0], mem)| + |EncodeRegions(rs[1..], mem)|
  {
    SavedAllUnfold(rs, mem);
  }

  // Decoding `rs` out of a prefix of their own encoding means nothing was lost.
  lemma MapDecodedIsWhole(rs: seq<Region>, mem: Memory, n: nat)
    requires n <= |EncodeMap(rs, mem)|
    requires DecodeMap(EncodeMap(rs, mem)[..n]).Some?
    requires DecodeMap(EncodeMap(rs, mem)[..n]).value.0 == SavedAll(Committed(rs), mem)
    ensures StorableMap(rs) && n == |EncodeMap(rs, mem)|
  {
    var blob, cs := EncodeMap(rs, mem), Committed(rs);
    var s := blob[..n];
    var (count, rest) := ReadField(s, SIZE32).value;
    FromLeBound(s[..SIZE32]);
    Pow256Sizes();
    EncodedNoLonger(cs, mem);
    assert |blob| == 4 + |EncodeRegions(cs, mem)|;
  }

  /** The memory map comes back from a (possibly cut) blob exactly when every region is
      storable, the count fits its field, and nothing was cut off; then every byte is used. */
  lemma MapRestoredIff(rs: seq<Region>, mem: Memory, n: nat)
    requires n <= |EncodeMap(rs, mem)|
    ensures var d := DecodeMap(EncodeMap(rs, mem)[..n]);
      && (d.Some? && d.value.0 == SavedAll(Committed(rs), mem) <==> StorableMap(rs) && n == |EncodeMap(rs, mem)|)
      && (d.Some? && d.value.0 == SavedAll(Committed(rs), mem) ==> d.value.1 == [])
  {
    var blob := EncodeMap(rs, mem);
    var d := DecodeMap(blob[..n]);
    if d.Some? && d.value.0 == SavedAll(Committed(rs), mem) {
      MapDecodedIsWhole(rs, mem, n);
    }
    if StorableMap(rs) && n == |blob| {
      assert blob[..n] == blob + [];
      MapRead(rs, mem, []);
    }
  }

  lemma {:induction false} CommittedSnoc(rs: seq<Region>, r: Region)
    ensures Committed(rs + [r]) == Committed(rs) + if r.committed then [r] else []
    decreases |rs|
  {
    if rs != [] {
      assert (rs + [r])[1..] == rs[1..] + [r];
      CommittedSnoc(rs[1..], r);
    } else {
      assert ([r])[1..] == [];
    }
  }

  lemma {:induction false} EncodeRegionsSnoc(rs: seq<Region>, r: Region, mem: Memory)
    ensures EncodeRegions(rs + [r], mem) == EncodeRegions(rs, mem) + EncodeRegion(r, mem)
    decreases |rs|
  {
    if rs != [] {
      assert (rs + [r])[1..] == rs[1..] + [r];
      EncodeRegionsSnoc(rs[1..], r, mem);
      Assoc(EncodeRegion(rs[0], mem), EncodeRegions(rs[1..], mem), EncodeRegion(r, mem));
    } else {
      assert ([r])[1..] == [];
      assert EncodeRegions([r], mem) == EncodeRegion(r, mem) + [];
    }
  }

  lemma CountStep(regions: seq<Region>, k: nat)
    requires k < |regions|
    ensures var n, m := |Committed(regions[..k])|, |Committed(regions[..k+1])|;
      m % U32 == if regions[k].committed then (n % U32 + 1) % U32 else n % U32
  {
    assert regions[..k+1] == regions[..k] + [regions[k]];
    CommittedSnoc(regions[..k], regions[k]);
    Increment(|Committed(regions[..k])|);
  }

  method CountCommitted(regions: seq<Region>) returns (n: nat)
    ensures n == |Committed(regions)| % U32
  {
    n := 0;
    for k := 0 to |regions|
      invariant n == |Committed(regions[..k])| % U32
    {
      CountStep(regions, k);
      if regions[k].committed { n := (n + 1) % U32; }
    }
    assert regions[..|regions|] == regions;
  }

  lemma Increment(x: nat)
    ensures (x % U32 + 1) % U32 == (x + 1) % U32
  {
  }

  lemma Flatten6(s: seq<byte>, a: seq<byte>, b: seq<byte>, c: seq<byte>, d: seq<byte>, e: seq<byte>, f: seq<byte>)
    ensures ((((((s + a) + b) + c) + d) + e) + f) == s + (a + (b + (c + (d + (e + f)))))
  {
    Assoc(((((s + a) + b) + c) + d), e, f);
    Assoc((((s + a) + b) + c), d, e + f);
    Assoc(((s + a) + b), c, d + (e + f));
    Assoc(s + a, b, c + (d + (e + f)));
    Assoc(s, a, b + (c + (d + (e + f))));
  }

  // What the first k regions contribute to the blob.
  function EncodePart(regions: seq<Region>, k: nat, mem: Memory): seq<byte>
    requires k <= |regions|
  {
    EncodeRegions(Committed(regions[..k]), mem)
  }

  lemma EncodePartStep(regions: seq<Region>, k: nat, mem: Memory)
    requires k < |regions|
    ensures EncodePart(regions, k + 1, mem) ==
      EncodePart(regions, k, mem) + if regions[k].committed then EncodeRegion(regions[k], mem) else []
  {
    assert regions[..k+1] == regions[..k] + [regions[k]];
    CommittedSnoc(regions[..k], regions[k]);
    if regions[k].committed {
      EncodeRegionsSnoc(Committed(regions[..k]), regions[k], mem);
    } else {
      assert Committed(regions[..k]) + [] == Committed(regions[..k]);
      assert EncodePart(regions, k, mem) + [] == EncodePart(regions, k, mem);
    }
  }

  lemma EncodePartEnds(regions: seq<Region>, mem: Memory)
    ensures EncodePart(regions, 0, mem) == []
    ensures EncodePart(regions, |regions|, mem) == EncodeRegions(Committed(regions), mem)
  {
    assert regions[..0] == [] && regions[..|regions|] == regions;
  }
}
