/** Guest paths: normalisation, the mount that serves a path, and the decision to open it. */
module Filesystem {
  import opened Options
  import opened Words

  // ----- segments -----

  function FirstSlash(s: string): (k: nat)
    ensures k <= |s| && '/' !in s[..k]
    ensures k < |s| ==> s[k] == '/'
  {
    if s == "" || s[0] == '/' then 0
    else
      var k := 1 + FirstSlash(s[1..]);
      assert s[..k] == [s[0]] + s[1..][..k - 1];
      k
  }

  // The segments `getline` yields: an empty one after a final slash is not produced.
  function Split(s: string): seq<string>
    decreases |s|
  {
    if s == "" then []
    else
      var k := FirstSlash(s);
      [s[..k]] + if k < |s| then Split(s[k + 1..]) else []
  }

  function Push(parts: seq<string>, seg: string): seq<string> {
    if seg == "" || seg == "." then parts
    else if seg == ".." then (if parts == [] then [] else parts[..|parts| - 1])
    else parts + [seg]
  }

  // Walking the segments from the directory `parts`.
  function Walk(parts: seq<string>, segs: seq<string>): seq<string>
    decreases |segs|
  {
    if segs == [] then parts else Walk(Push(parts, segs[0]), segs[1..])
  }

  function Parts(path: string): seq<string> {
    Walk([], Split(path))
  }

  function Relative(parts: seq<string>): string {
    if parts == [] then ""
    else parts[0] + if |parts| > 1 then "/" + Relative(parts[1..]) else ""
  }

  function Normal(path: string): string {
    "/" + Relative(Parts(path))
  }

  lemma SplitStep(s: string)
    requires s != ""
    ensures var k := FirstSlash(s);
      && Split(s) != [] && Split(s)[0] == s[..k]
      && Split(s)[1..] == if k < |s| then Split(s[k + 1..]) else []
  {
  }

  // `std::getline` with '/' as the delimiter.
  method GetLine(path: string, pos: nat) returns (seg: string, next: nat)
    requires pos < |path|
    ensures pos < next <= |path|
    ensures Split(path[pos..]) == [seg] + Split(path[next..])
  {
    ghost var rest := path[pos..];
    next := pos;
    while next < |path| && path[next] != '/'
      invariant pos <= next <= |path|
      invariant '/' !in path[pos..next]
    {
      next := next + 1;
    }
    seg := path[pos..next];
    assert seg == rest[..next - pos];
    FirstSlashIs(rest, next - pos);
    SplitStep(rest);
    if next < |path| {
      next := next + 1;
      assert rest[next - pos..] == path[next..];
    } else {
      assert path[next..] == "";
    }
  }

  method Join(parts: seq<string>) returns (result: string)
    ensures result == "/" + Relative(parts)
  {
    result := "/";
    for i := 0 to |parts|
      invariant result + Relative(parts[i..]) == "/" + Relative(parts)
    {
      ghost var rest := parts[i..];
      assert rest[1..] == parts[i + 1..];
      result := result + parts[i];
      if i + 1 < |parts| { result := result + "/"; }
    }
  }

  method Normalise(path: string) returns (result: string)
    ensures result == Normal(path)
  {
    var parts: seq<string> := [];
    var pos := 0;
    while pos < |path|
      invariant pos <= |path|
      invariant Walk(parts, Split(path[pos..])) == Parts(path)
    {
      ghost var segs := Split(path[pos..]);
      var seg;
      seg, pos := GetLine(path, pos);
      assert segs[1..] == Split(path[pos..]);
      if seg == "" || seg == "." { continue; }
      if seg == ".." {
        if parts != [] { parts := parts[..|parts| - 1]; }
      } else {
        parts := parts + [seg];
      }
    }
    assert path[pos..] == "";
    result := Join(parts);
  }

  lemma SlashFree(s: string, k: nat)
    requires k <= |s| && '/' !in s[..k]
    ensures forall i :: 0 <= i < k ==> s[i] != '/'
  {
    assert forall i :: 0 <= i < k ==> s[i] == s[..k][i];
  }

  lemma FirstSlashIs(s: string, k: nat)
    requires k <= |s| && '/' !in s[..k] && (k < |s| ==> s[k] == '/')
    ensures FirstSlash(s) == k
  {
    SlashFree(s, k);
    SlashFree(s, FirstSlash(s));
  }

  // ----- normal paths -----

  predicate Plain(seg: string) {
    seg != "" && seg != "." && seg != ".." && '/' !in seg
  }

  ghost predicate AllPlain(parts: seq<string>) {
    forall i :: 0 <= i < |parts| ==> Plain(parts[i])
  }

  lemma {:induction false} SplitHasNoSlash(s: string)
    ensures forall i :: 0 <= i < |Split(s)| ==> '/' !in Split(s)[i]
    decreases |s|
  {
    if s != "" && FirstSlash(s) < |s| { SplitHasNoSlash(s[FirstSlash(s) + 1..]); }
  }

  lemma {:induction false} WalkIsPlain(parts: seq<string>, segs: seq<string>)
    requires AllPlain(parts) && forall i :: 0 <= i < |segs| ==> '/' !in segs[i]
    ensures AllPlain(Walk(parts, segs))
    decreases |segs|
  {
    if segs != [] { WalkIsPlain(Push(parts, segs[0]), segs[1..]); }
  }

  lemma PartsArePlain(path: string)
    ensures AllPlain(Parts(path))
  {
    SplitHasNoSlash(path);
    WalkIsPlain([], Split(path));
  }

  lemma {:induction false} SplitRelative(parts: seq<string>)
    requires AllPlain(parts)
    ensures Split(Relative(parts)) == parts
  {
    if parts != [] {
      var s := Relative(parts);
      assert s[..|parts[0]|] == parts[0];
      FirstSlashIs(s, |parts[0]|);
      if |parts| > 1 {
        SplitRelative(parts[1..]);
        assert s[|parts[0]| + 1..] == Relative(parts[1..]);
      } else {
        assert s == parts[0];
      }
    }
  }

  lemma {:induction false} WalkPlain(parts: seq<string>, segs: seq<string>)
    requires AllPlain(segs)
    ensures Walk(parts, segs) == parts + segs
    decreases |segs|
  {
    if segs != [] {
      WalkPlain(parts + [segs[0]], segs[1..]);
      assert parts + segs == (parts + [segs[0]]) + segs[1..];
    }
  }

  lemma SplitRooted(s: string)
    ensures Split("/" + s) == [""] + Split(s)
  {
    FirstSlashIs("/" + s, 0);
    assert ("/" + s)[1..] == s;
  }

  /** A normal path walks to the directory it was made from. */
  lemma PartsOfNormal(path: string)
    ensures Parts(Normal(path)) == Parts(path)
  {
    var parts := Parts(path);
    PartsArePlain(path);
    SplitRooted(Relative(parts));
    SplitRelative(parts);
    WalkPlain([], parts);
    assert Split(Normal(path))[1..] == parts;
  }

  /** Normalising twice is normalising once. */
  lemma Idempotent(path: string)
    ensures Normal(Normal(path)) == Normal(path)
  {
    PartsOfNormal(path);
  }

  /** A normal path is one slash and then only proper segments: none empty, none "." or "..". */
  lemma NormalShape(path: string)
    ensures Normal(path)[0] == '/'
    ensures Split(Normal(path)[1..]) == Parts(path) && AllPlain(Parts(path))
    ensures Normal(path) == "/" || Normal(path)[|Normal(path)| - 1] != '/'
  {
    PartsArePlain(path);
    SplitRelative(Parts(path));
    assert Normal(path)[1..] == Relative(Parts(path));
    LastIsNoSlash(Parts(path));
  }

  lemma {:induction false} LastIsNoSlash(parts: seq<string>)
    requires AllPlain(parts)
    ensures parts != [] ==> var s := Relative(parts); s != "" && s[0] != '/' && s[|s| - 1] != '/'
  {
    if |parts| > 1 {
      LastIsNoSlash(parts[1..]);
    } else if |parts| == 1 {
      assert Relative(parts) == parts[0];
    }
  }

  lemma WalkCons(parts: seq<string>, seg: string, segs: seq<string>)
    ensures Walk(parts, [seg] + segs) == Walk(Push(parts, seg), segs)
  {
    assert ([seg] + segs)[1..] == segs;
  }

  lemma SplitConcat(p: string, q: string)
    ensures var k, s := FirstSlash(p), p + "/" + q;
      Split(s) == [p[..k]] + if k < |p| then Split(p[k + 1..] + "/" + q) else Split(q)
  {
    var k, s := FirstSlash(p), p + "/" + q;
    assert s[..k] == p[..k];
    FirstSlashIs(s, k);
    if k < |p| {
      assert s[k + 1..] == p[k + 1..] + "/" + q;
    } else {
      assert s[k + 1..] == q;
    }
  }

  // Walking p, then q.
  lemma {:induction false} WalkConcat(parts: seq<string>, p: string, q: string)
    ensures Walk(parts, Split(p + "/" + q)) == Walk(Walk(parts, Split(p)), Split(q))
    decreases |p|
  {
    SplitConcat(p, q);
    var k := FirstSlash(p);
    if k < |p| {
      var rest := p[k + 1..];
      WalkConcat(Push(parts, p[..k]), rest, q);
      WalkCons(parts, p[..k], Split(rest + "/" + q));
      WalkCons(parts, p[..k], Split(rest));
    } else {
      WalkCons(parts, p, Split(q));
      if p != "" { WalkCons(parts, p, []); }
    }
  }

  /** Normalising the directory first does not change where a path below it leads. */
  lemma NormalConcat(p: string, q: string)
    ensures Normal(Normal(p) + "/" + q) == Normal(p + "/" + q)
  {
    PartsOfNormal(p);
    WalkConcat([], Normal(p), q);
    WalkConcat([], p, q);
  }

  // ----- what a segment does -----

  // Walking `p` and then the one segment `x`.
  lemma OneMore(p: string, x: string)
    requires '/' !in x
    ensures Parts(p + "/" + x) == Push(Parts(p), x)
  {
    WalkConcat([], p, x);
    if x != "" {
      assert x[..|x|] == x;
      FirstSlashIs(x, |x|);
      SplitStep(x);
      assert Split(x) == [x] + Split(x)[1..] == [x];
      assert Walk(Push(Parts(p), x), []) == Push(Parts(p), x);
    }
  }

  lemma {:induction false} RelativeSnoc(parts: seq<string>, x: string)
    ensures Relative(parts + [x]) == if parts == [] then x else Relative(parts) + "/" + x
  {
    if parts == [] {
      assert Relative([x]) == x + "";
    } else {
      var all := parts + [x];
      assert all[1..] == parts[1..] + [x];
      RelativeSnoc(parts[1..], x);
      if |parts| > 1 {
        assert Relative(all) == parts[0] + ("/" + ((Relative(parts[1..]) + "/") + x));
        assert Relative(parts) == parts[0] + ("/" + Relative(parts[1..]));
      }
    }
  }

  /** A proper segment leads one step down. */
  lemma Enter(p: string, x: string)
    requires Plain(x)
    ensures Normal(p + "/" + x) == if Normal(p) == "/" then "/" + x else Normal(p) + "/" + x
  {
    OneMore(p, x);
    RelativeSnoc(Parts(p), x);
    PartsArePlain(p);
    LastIsNoSlash(Parts(p));
  }

  /** Empty segments and "." lead nowhere, ".." leads back, and at the root it stays there. */
  lemma StayAndLeave(p: string, x: string)
    requires Plain(x)
    ensures Normal(p + "/") == Normal(p) && Normal(p + "/" + ".") == Normal(p)
    ensures Normal((p + "/" + x) + "/" + "..") == Normal(p)
    ensures Normal(p) == "/" ==> Normal(p + "/" + "..") == "/"
    ensures Normal("") == "/"
  {
    OneMore(p, "");
    assert p + "/" + "" == p + "/";
    OneMore(p, ".");
    OneMore(p, x);
    OneMore(p + "/" + x, "..");
    assert (Parts(p) + [x])[..|Parts(p)|] == Parts(p);
    OneMore(p, "..");
    PartsArePlain(p);
    LastIsNoSlash(Parts(p));
  }

  // ----- mounts -----

  const MOUNTS: nat := 6

  function MountName(slot: nat): string {
    match slot
    case 0 => "app0"
    case 1 => "savedata"
    case 2 => "system"
    case 3 => "temp"
    case 4 => "user"
    case 5 => "hostapp"
    case _ => ""
  }

  const PREFIXES: seq<string> := ["/app0", "/savedata", "/system", "/temp", "/user", "/hostapp"]

  datatype MountEntry = MountEntry(prefix: string, hostPath: string, valid: bool, readOnly: bool)

  const NO_MOUNT := MountEntry("", "", false, false)

  predicate StartsWith(s: string, p: string) {
    |p| <= |s| && s[..|p|] == p
  }

  // A valid entry carries the prefix of its slot.
  predicate ValidMounts(mounts: seq<MountEntry>) {
    && |mounts| == MOUNTS
    && forall i :: 0 <= i < MOUNTS && mounts[i].valid ==> mounts[i].prefix == PREFIXES[i]
  }

  // The test of the resolver, and the weaker one that picks the read-only flag.
  predicate Covers(m: MountEntry, guest: string) {
    m.valid && (guest == m.prefix || StartsWith(guest, m.prefix + "/"))
  }

  predicate Begins(m: MountEntry, guest: string) {
    m.valid && StartsWith(guest, m.prefix)
  }

  /** No path starts with two of the prefixes. */
  lemma PrefixesExclude(i: nat, j: nat, s: string)
    requires i < MOUNTS && j < MOUNTS
    requires StartsWith(s, PREFIXES[i]) && StartsWith(s, PREFIXES[j])
    ensures i == j
  {
    assert s[1] == PREFIXES[i][1] && s[1] == PREFIXES[j][1];
    assert s[2] == PREFIXES[i][2] && s[2] == PREFIXES[j][2];
  }

  lemma PrefixSegment(i: nat)
    requires i < MOUNTS
    ensures |PREFIXES[i]| > 1 && PREFIXES[i][0] == '/' && '/' !in PREFIXES[i][1..]
    ensures PREFIXES[i] == "/" + MountName(i)
  {
    assert PREFIXES[i][1..] in ["app0", "savedata", "system", "temp", "user", "hostapp"];
  }

  // Slot i serves the path: the first segment is its name.
  predicate Serves(mounts: seq<MountEntry>, i: nat, path: string)
    requires i < |mounts| == MOUNTS
  {
    mounts[i].valid && Parts(path) != [] && Parts(path)[0] == MountName(i)
  }

  lemma TailOfNormal(path: string)
    requires Parts(path) != []
    ensures var parts := Parts(path);
      Normal(path) == ("/" + parts[0]) + if |parts| > 1 then "/" + Relative(parts[1..]) else ""
  {
  }

  /** The resolver's test on a normal path is a test of its first segment. */
  lemma CoversIff(mounts: seq<MountEntry>, i: nat, path: string)
    requires ValidMounts(mounts) && i < MOUNTS
    ensures Covers(mounts[i], Normal(path)) <==> Serves(mounts, i, path)
  {
    PrefixSegment(i);
    PartsArePlain(path);
    var parts, p := Parts(path), PREFIXES[i];
    if parts != [] && mounts[i].valid {
      TailOfNormal(path);
      FirstSegment(parts[0], if |parts| > 1 then "/" + Relative(parts[1..]) else "", p);
    }
  }

  // A prefix that ends at the end of s or before a slash ends where the first segment does.
  lemma SegmentEnd(seg: string, tail: string, p: string)
    requires '/' !in seg && |p| > 1 && '/' !in p[1..]
    requires tail == "" || tail[0] == '/'
    requires var s := ("/" + seg) + tail; StartsWith(s, p) && (|s| == |p| || s[|p|] == '/')
    ensures |p| == |seg| + 1
  {
    var s := ("/" + seg) + tail;
    assert seg[..|seg|] == seg && p[1..][..|p| - 1] == p[1..];
    SlashFree(seg, |seg|);
    SlashFree(p[1..], |p| - 1);
    assert tail != "" ==> s[|seg| + 1] == '/';
    assert forall i :: 1 <= i <= |seg| ==> s[i] == seg[i - 1];
    assert forall i :: 1 <= i < |p| ==> s[i] == p[i] == p[1..][i - 1];
  }

  lemma FirstSegment(seg: string, tail: string, p: string)
    requires '/' !in seg && |p| > 1 && p[0] == '/' && '/' !in p[1..]
    requires tail == "" || tail[0] == '/'
    ensures var s := ("/" + seg) + tail;
      (s == p || StartsWith(s, p + "/")) <==> "/" + seg == p
  {
    var s := ("/" + seg) + tail;
    if s == p || StartsWith(s, p + "/") {
      assert StartsWith(s, p + "/") ==> s[..|p| + 1] == p + "/" && s[..|p|] == p;
      SegmentEnd(seg, tail, p);
      assert s[..|p|] == "/" + seg;
    }
    if "/" + seg == p && tail != "" {
      assert s[..|p| + 1] == p + "/";
    }
  }

  /** A path is served by at most one mount. */
  lemma OneMountServes(mounts: seq<MountEntry>, i: nat, j: nat, path: string)
    requires ValidMounts(mounts) && i < MOUNTS && j < MOUNTS
    requires Serves(mounts, i, path) && Serves(mounts, j, path)
    ensures i == j
  {
    PrefixSegment(i);
    PrefixSegment(j);
    PrefixesExclude(i, j, PREFIXES[i]);
  }

  /** The mount that serves a path is the only one the weaker prefix test accepts. */
  lemma WeakTestAgrees(mounts: seq<MountEntry>, i: nat, j: nat, path: string)
    requires ValidMounts(mounts) && i < MOUNTS && j < MOUNTS
    requires Serves(mounts, i, path)
    ensures Begins(mounts[j], Normal(path)) <==> i == j
  {
    TailOfNormal(path);
    PrefixSegment(i);
    assert StartsWith(Normal(path), PREFIXES[i]);
    if Begins(mounts[j], Normal(path)) {
      PrefixesExclude(i, j, Normal(path));
    }
  }

  // ----- opening -----

  // Positions of the flags a caller passes.
  const READ: nat := 0
  const WRITE: nat := 1
  const TRUNCATE: nat := 3
  const APPEND: nat := 4

  // The mode string for `fopen`.
  function FlagMode(flags: u32, rdOnly: bool): (mode: string)
    ensures mode != "rb" <==> Digit(flags, WRITE) && !rdOnly
  {
    var r, w, t, a := Digit(flags, READ), Digit(flags, WRITE), Digit(flags, TRUNCATE), Digit(flags, APPEND);
    if rdOnly then "rb"
    else if w && t then "wb"
    else if w && a then "ab"
    else if w && r then "r+b"
    else if w then "wb"
    else "rb"
  }

  /** The mode, from bit 0 (read), 1 (write), 3 (truncate) and 4 (append) of the flags. */
  lemma FlagModeMeans(flags: u32, rdOnly: bool)
    ensures var r, w := flags % 2 == 1, flags / 2 % 2 == 1;
      var t, a := flags / 8 % 2 == 1, flags / 16 % 2 == 1;
      && (FlagMode(flags, rdOnly) == "wb" <==> !rdOnly && w && (t || (!a && !r)))
      && (FlagMode(flags, rdOnly) == "ab" <==> !rdOnly && w && !t && a)
      && (FlagMode(flags, rdOnly) == "r+b" <==> !rdOnly && w && !t && !a && r)
      && (FlagMode(flags, rdOnly) == "rb" <==> rdOnly || !w)
  {
    ShrIsDivision(flags, READ); ShrIsDivision(flags, WRITE);
    ShrIsDivision(flags, TRUNCATE); ShrIsDivision(flags, APPEND);
    assert Pow2(0) == 1 && Pow2(1) == 2 && Pow2(3) == 8 && Pow2(4) == 16;
  }

  // The slot and the path below its host directory.
  datatype Place = Place(slot: nat, rel: string)

  datatype Opening = NoMount | WriteDenied | OpenAs(place: Place, mode: string)

  class VfsState {
    const mounts: array<MountEntry>

    constructor ()
      ensures Valid() && fresh(mounts)
      ensures forall i :: 0 <= i < MOUNTS ==> !mounts[i].valid
    {
      mounts := new MountEntry[MOUNTS](i => NO_MOUNT);
    }

    ghost predicate Valid()
      reads this, mounts
    {
      ValidMounts(mounts[..])
    }

    // `usable`: the host directory exists or could be created.
    method Mount(idx: nat, hostPath: string, readOnly: bool, usable: bool) returns (ok: bool)
      requires Valid()
      modifies mounts
      ensures Valid()
      ensures ok <==> idx < MOUNTS && usable
      ensures mounts[..] == if ok then old(mounts[..])[idx := MountEntry(PREFIXES[idx], hostPath, true, readOnly)]
                            else old(mounts[..])
    {
      if idx >= MOUNTS || !usable { return false; }
      mounts[idx] := MountEntry(PREFIXES[idx], hostPath, true, readOnly);
      ok := true;
    }

    method Unmount(idx: nat) returns (ok: bool)
      requires Valid()
      modifies mounts
      ensures Valid()
      ensures ok <==> idx < MOUNTS
      ensures mounts[..] == if ok then old(mounts[..])[idx := NO_MOUNT] else old(mounts[..])
    {
      if idx >= MOUNTS { return false; }
      mounts[idx] := NO_MOUNT;
      ok := true;
    }

    /** Resolution: the one mount named by the first segment, and the remaining segments below it. */
    method Resolve(guestRaw: string) returns (r: Option<Place>)
      requires Valid()
      ensures r.Some? ==>
        && r.value.slot < MOUNTS && Serves(mounts[..], r.value.slot, guestRaw)
        && r.value.rel == Relative(Parts(guestRaw)[1..])
      ensures r.None? ==> forall i :: 0 <= i < MOUNTS ==> !Serves(mounts[..], i, guestRaw)
    {
      var guest := Normalise(guestRaw);
      for i := 0 to MOUNTS
        invariant forall k :: 0 <= k < i ==> !Serves(mounts[..], k, guestRaw)
      {
        var m := mounts[i];
        CoversIff(mounts[..], i, guestRaw);
        if m.valid {
          if guest == m.prefix || StartsWith(guest, m.prefix + "/") {
            TailOfNormal(guestRaw);
            var rel := guest[|m.prefix|..];
            if rel != "" && rel[0] == '/' { rel := rel[1..]; }
            return Some(Place(i, rel));
          }
        }
      }
      r := None;
    }

    method Open(guestPath: string, flags: u32) returns (r: Opening)
      requires Valid()
      ensures r.NoMount? <==> forall i :: 0 <= i < MOUNTS ==> !Serves(mounts[..], i, guestPath)
      ensures r.WriteDenied? <==>
        (Digit(flags, WRITE) && exists i :: 0 <= i < MOUNTS && Serves(mounts[..], i, guestPath) && mounts[i].readOnly)
      ensures r.OpenAs? ==>
        && r.place.slot < MOUNTS && Serves(mounts[..], r.place.slot, guestPath)
        && r.place.rel == Relative(Parts(guestPath)[1..])
        && r.mode == FlagMode(flags, mounts[r.place.slot].readOnly)
        && (mounts[r.place.slot].readOnly ==> r.mode == "rb")
        && (r.mode != "rb" <==> Digit(flags, WRITE))
    {
      var host := Resolve(guestPath);
      var rdOnly := false;
      var norm := Normalise(guestPath);
      for i := 0 to MOUNTS
        invariant forall k :: 0 <= k < i ==> !Begins(mounts[k], Normal(guestPath))
        invariant !rdOnly
      {
        var m := mounts[i];
        if m.valid && StartsWith(norm, m.prefix) {
          rdOnly := m.readOnly;
          break;
        }
      }
      if host.None? { return NoMount; }
      var place := host.value;
      ReadOnlyFlagIsRight(mounts[..], place.slot, guestPath);
      if rdOnly && Digit(flags, WRITE) { return WriteDenied; }
      r := OpenAs(place, FlagMode(flags, rdOnly));
    }
  }

  lemma ReadOnlyFlagIsRight(mounts: seq<MountEntry>, i: nat, path: string)
    requires ValidMounts(mounts) && i < MOUNTS && Serves(mounts, i, path)
    ensures forall j :: 0 <= j < MOUNTS ==> (Begins(mounts[j], Normal(path)) <==> j == i)
    ensures forall j :: 0 <= j < MOUNTS && Serves(mounts, j, path) ==> j == i
  {
    forall j | 0 <= j < MOUNTS
      ensures Begins(mounts[j], Normal(path)) <==> j == i
      ensures Serves(mounts, j, path) ==> j == i
    {
      WeakTestAgrees(mounts, i, j, path);
      if Serves(mounts, j, path) { OneMountServes(mounts, i, j, path); }
    }
  }

  /** What is appended to the host directory is relative and has no "..", "." or empty segment. */
  lemma RelativeStaysBelow(path: string)
    requires Parts(path) != []
    ensures var rel := Relative(Parts(path)[1..]);
      && AllPlain(Split(rel))
      && (rel == "" || rel[0] != '/')
      && Split(rel) == Parts(path)[1..]
  {
    PartsArePlain(path);
    SplitRelative(Parts(path)[1..]);
    LastIsNoSlash(Parts(path)[1..]);
  }
}
