/** The registry of loaded modules: named registration, reference counts, symbol resolution. */
module ModuleRegistry {
  import opened Options
  import opened Graphs
  import opened Words

  datatype ElfSymbol = ElfSymbol(name: string, value: nat, kind: nat)
  datatype Export = Export(name: string, address: nat, owner: nat)
  datatype Module = Module(name: string, deps: seq<nat>, exports: seq<Export>, refCount: nat)

  datatype Registry = Registry(
    modules: map<nat, Module>,
    byName: map<string, nat>,
    loadOrder: seq<nat>,
    nextId: nat)

  const EMPTY_REGISTRY := Registry(map[], map[], [], 1)

  // ----- symbol resolution -----

  // The first export of that name in one module.
  function FirstExport(exports: seq<Export>, name: string): Option<Export> {
    if exports == [] then None
    else if exports[0].name == name then Some(exports[0])
    else FirstExport(exports[1..], name)
  }

  function ExportsOf(modules: map<nat, Module>, id: nat): seq<Export> {
    if id in modules then modules[id].exports else []
  }

  /** Linear search over the load order: the meaning of ResolveSymbol. */
  function Resolve(modules: map<nat, Module>, order: seq<nat>, name: string): Option<Export> {
    if order == [] then None
    else
      var here := FirstExport(ExportsOf(modules, order[0]), name);
      if here.Some? then here else Resolve(modules, order[1..], name)
  }

  function Fresh(r: Registry, name: string): Option<Export> {
    Resolve(r.modules, r.loadOrder, name)
  }

  lemma {:induction false} FirstExportIsFirst(exports: seq<Export>, name: string)
    ensures FirstExport(exports, name).None? <==> forall e :: e in exports ==> e.name != name
    ensures FirstExport(exports, name).Some? ==>
      exists k :: 0 <= k < |exports| && exports[k] == FirstExport(exports, name).value &&
        exports[k].name == name && forall i :: 0 <= i < k ==> exports[i].name != name
  {
    if exports != [] {
      FirstExportIsFirst(exports[1..], name);
      assert exports == [exports[0]] + exports[1..];
      if exports[0].name != name && FirstExport(exports[1..], name).Some? {
        var k :| 0 <= k < |exports[1..]| && exports[1..][k] == FirstExport(exports[1..], name).value &&
          exports[1..][k].name == name && forall i :: 0 <= i < k ==> exports[1..][i].name != name;
        forall i | 0 <= i < k + 1 ensures exports[i].name != name {
          if i > 0 { assert exports[1..][i-1].name != name; }
        }
        assert exports[k+1] == FirstExport(exports, name).value;
      }
    }
  }

  /** Resolution picks the earliest loaded module that exports the name at all. */
  lemma {:induction false} ResolveIsFirst(modules: map<nat, Module>, order: seq<nat>, name: string)
    ensures Resolve(modules, order, name).None? <==>
      forall id :: id in order ==> FirstExport(ExportsOf(modules, id), name).None?
    ensures Resolve(modules, order, name).Some? ==>
      exists k :: 0 <= k < |order| &&
        FirstExport(ExportsOf(modules, order[k]), name) == Resolve(modules, order, name) &&
        forall i :: 0 <= i < k ==> FirstExport(ExportsOf(modules, order[i]), name).None?
  {
    if order != [] {
      ResolveIsFirst(modules, order[1..], name);
      assert order == [order[0]] + order[1..];
      var here := FirstExport(ExportsOf(modules, order[0]), name);
      if here.None? && Resolve(modules, order[1..], name).Some? {
        var k :| 0 <= k < |order[1..]| &&
          FirstExport(ExportsOf(modules, order[1..][k]), name) == Resolve(modules, order[1..], name) &&
          forall i :: 0 <= i < k ==> FirstExport(ExportsOf(modules, order[1..][i]), name).None?;
        forall i | 0 <= i < k + 1 ensures FirstExport(ExportsOf(modules, order[i]), name).None? {
          if i > 0 { assert order[i] == order[1..][i-1]; }
        }
        assert order[k+1] == order[1..][k];
      }
    }
  }

  lemma {:induction false} ResolveAppend(modules: map<nat, Module>, order: seq<nat>, id: nat, m: Module, name: string)
    requires id !in order
    ensures Resolve(modules[id := m], order + [id], name) ==
      if Resolve(modules, order, name).Some? then Resolve(modules, order, name) else FirstExport(m.exports, name)
  {
    var modules' := modules[id := m];
    if order == [] {
      assert ([id])[1..] == [];
      assert [] + [id] == [id];
      assert Resolve(modules', [], name).None?;
    } else {
      assert (order + [id])[1..] == order[1..] + [id];
      assert ExportsOf(modules', order[0]) == ExportsOf(modules, order[0]);
      ResolveAppend(modules, order[1..], id, m, name);
    }
  }

  // `erase(remove(...))` on the load order.
  function Without(order: seq<nat>, id: nat): (r: seq<nat>)
    ensures forall v :: v in r <==> v in order && v != id
  {
    if order == [] then [] else (if order[0] == id then [] else [order[0]]) + Without(order[1..], id)
  }

  lemma {:induction false} WithoutNoDup(order: seq<nat>, id: nat)
    requires NoDup(order)
    ensures NoDup(Without(order, id))
  {
    if order != [] {
      WithoutNoDup(order[1..], id);
      var rest := Without(order[1..], id);
      assert order[0] !in order[1..];
      assert order[0] !in rest && NoDup([order[0]] + rest);
    }
  }

  lemma {:induction false} WithoutAppend(a: seq<nat>, b: nat, id: nat)
    ensures Without(a + [b], id) == Without(a, id) + if b == id then [] else [b]
  {
    if a != [] {
      assert (a + [b])[1..] == a[1..] + [b];
      WithoutAppend(a[1..], b, id);
    }
  }

  // Unloading a module cannot change a symbol that another module provides.
  lemma {:induction false} ResolveWithout(modules: map<nat, Module>, order: seq<nat>, id: nat, name: string)
    requires OwnExports(modules)
    requires Resolve(modules, order, name).Some? && Resolve(modules, order, name).value.owner != id
    ensures Resolve(modules - {id}, Without(order, id), name) == Resolve(modules, order, name)
  {
    FirstExportIsFirst(ExportsOf(modules, order[0]), name);
    var rest := Without(order[1..], id);
    if order[0] != id {
      assert ExportsOf(modules - {id}, order[0]) == ExportsOf(modules, order[0]);
      assert ([order[0]] + rest)[1..] == rest;
    } else {
      assert Without(order, id) == rest;
    }
    if FirstExport(ExportsOf(modules, order[0]), name).None? {
      ResolveWithout(modules, order[1..], id, name);
    }
  }

  lemma {:induction false} ResolveOwner(modules: map<nat, Module>, order: seq<nat>, name: string)
    requires OwnExports(modules) && Resolve(modules, order, name).Some?
    ensures Resolve(modules, order, name).value.owner in modules
    ensures Resolve(modules, order, name).value.owner in order
    ensures Resolve(modules, order, name).value.name == name
  {
    FirstExportIsFirst(ExportsOf(modules, order[0]), name);
    if FirstExport(ExportsOf(modules, order[0]), name).None? {
      ResolveOwner(modules, order[1..], name);
    }
  }

  // ----- invariant -----

  ghost predicate OwnExports(modules: map<nat, Module>) {
    forall id, e :: id in modules && e in modules[id].exports ==> e.owner == id
  }

  ghost predicate WellFormed(r: Registry) {
    && NoDup(r.loadOrder)
    && (forall id: nat :: id in r.loadOrder <==> id in r.modules)
    && (forall id :: id in r.modules ==> 0 < id < r.nextId)
    && r.nextId > 0
    && OwnExports(r.modules)
    && (forall n :: n in r.byName ==> r.byName[n] in r.modules && r.modules[r.byName[n]].name == n)
    && (forall id :: id in r.modules ==> r.modules[id].name in r.byName && r.byName[r.modules[id].name] == id)
  }

  // ----- operations -----

  predicate Exported(s: ElfSymbol) {
    (s.kind == 2 || s.kind == 1) && s.name != "" && s.value != 0
  }

  function ExportsFrom(symbols: seq<ElfSymbol>, base: nat, id: nat): (es: seq<Export>)
    ensures forall e :: e in es ==> e.owner == id
  {
    if symbols == [] then []
    else
      var s, rest := Last(symbols), symbols[..|symbols|-1];
      ExportsFrom(rest, base, id) + if Exported(s) then [Export(s.name, (s.value + base) % U64, id)] else []
  }

  // A function or an object with a name and a value.
  predicate Visible(s: ElfSymbol) {
    (s.kind == 1 || s.kind == 2) && |s.name| > 0 && s.value > 0
  }

  // The places of the visible symbols.
  function VisibleAt(symbols: seq<ElfSymbol>): (at: seq<nat>)
    ensures forall k :: 0 <= k < |at| ==> at[k] < |symbols|
  {
    if symbols == [] then []
    else
      var n := |symbols| - 1;
      if Visible(symbols[n]) then VisibleAt(symbols[..n]) + [n] else VisibleAt(symbols[..n])
  }

  /** In order, and exactly the places of the visible symbols. */
  lemma {:induction false} VisibleAtMeans(symbols: seq<ElfSymbol>)
    ensures var at := VisibleAt(symbols);
      && (forall j, k :: 0 <= j < k < |at| ==> at[j] < at[k])
      && (forall i: nat :: i in at <==> i < |symbols| && Visible(symbols[i]))
    decreases |symbols|
  {
    if symbols != [] {
      var n := |symbols| - 1;
      VisibleAtMeans(symbols[..n]);
      assert forall i: nat :: i < n ==> symbols[..n][i] == symbols[i];
    }
  }

  /** The exports are the visible symbols of the table in its order, relocated to the base. */
  ghost predicate ExportsOfTable(exports: seq<Export>, symbols: seq<ElfSymbol>, base: nat, id: nat) {
    var at := VisibleAt(symbols);
    && |at| == |exports|
    && forall k :: 0 <= k < |at| ==> var s := symbols[at[k]];
         exports[k] == Export(s.name, (s.value + base) % 0x1_0000_0000_0000_0000, id)
  }

  lemma ExportsLast(symbols: seq<ElfSymbol>, base: nat, id: nat)
    requires symbols != []
    ensures var s := symbols[|symbols| - 1];
      ExportsFrom(symbols, base, id) ==
      ExportsFrom(symbols[..|symbols| - 1], base, id) +
      if Visible(s) then [Export(s.name, (s.value + base) % U64, id)] else []
  {
  }

  lemma TableSnoc(exports: seq<Export>, symbols: seq<ElfSymbol>, base: nat, id: nat)
    requires symbols != [] && ExportsOfTable(exports, symbols[..|symbols| - 1], base, id)
    ensures var s := symbols[|symbols| - 1];
      ExportsOfTable(
        exports + if Visible(s) then [Export(s.name, (s.value + base) % U64, id)] else [], symbols, base, id)
  {
  }

  lemma {:induction false} ExportsAreThose(symbols: seq<ElfSymbol>, base: nat, id: nat)
    ensures ExportsOfTable(ExportsFrom(symbols, base, id), symbols, base, id)
    decreases |symbols|
  {
    if symbols != [] {
      var n := |symbols| - 1;
      ExportsAreThose(symbols[..n], base, id);
      var exports, s := ExportsFrom(symbols[..n], base, id), symbols[n];
      TableSnoc(exports, symbols, base, id);
      ExportsLast(symbols, base, id);
    }
  }

  function Bump(m: Module): Module {
    m.(refCount := (m.refCount + 1) % U32)
  }

  function RegisterSpec(r: Registry, name: string, symbols: seq<ElfSymbol>, base: nat): Registry
    requires WellFormed(r)
  {
    if name in r.byName then
      var id := r.byName[name];
      r.(modules := r.modules[id := Bump(r.modules[id])])
    else
      var m := Module(name, [], ExportsFrom(symbols, base, r.nextId), 1);
      Registry(r.modules[r.nextId := m], r.byName[name := r.nextId], r.loadOrder + [r.nextId], r.nextId + 1)
  }

  function RetainSpec(r: Registry, id: nat): Registry {
    if id in r.modules then r.(modules := r.modules[id := Bump(r.modules[id])]) else r
  }

  // Unloading erases the module only when this was its last reference and nothing needs it.
  ghost predicate Erases(r: Registry, id: nat) {
    id in r.modules && r.modules[id].refCount <= 1 && !Needed(r.modules, id)
  }

  ghost predicate Needed(modules: map<nat, Module>, id: nat) {
    exists o :: o in modules && o != id && id in modules[o].deps
  }

  ghost function UnloadSpec(r: Registry, id: nat): Registry {
    if id !in r.modules then r
    else if r.modules[id].refCount > 1 then
      r.(modules := r.modules[id := r.modules[id].(refCount := r.modules[id].refCount - 1)])
    else if Needed(r.modules, id) then r
    else Registry(r.modules - {id}, r.byName - {r.modules[id].name}, Without(r.loadOrder, id), r.nextId)
  }

  /** A known name gains a reference, modulo 2^32; a new one gets the next id, the visible symbols of its
      table, one reference, and the last place of the load order. Nothing else changes. */
  ghost predicate RegisterMeans(
    r: Registry, r': Registry, name: string, symbols: seq<ElfSymbol>, base: nat, id: nat)
  {
    if name in r.byName && r.byName[name] in r.modules then
      && id == r.byName[name]
      && r'.modules == r.modules[id := r.modules[id].(refCount := (r.modules[id].refCount + 1) % 0x1_0000_0000)]
      && r'.byName == r.byName && r'.loadOrder == r.loadOrder && r'.nextId == r.nextId
    else
      && id == r.nextId && r'.nextId == id + 1
      && r'.byName == r.byName[name := id] && r'.loadOrder == r.loadOrder + [id]
      && id in r'.modules && r'.modules == r.modules[id := r'.modules[id]]
      && r'.modules[id].name == name && r'.modules[id].deps == [] && r'.modules[id].refCount == 1
      && ExportsOfTable(r'.modules[id].exports, symbols, base, id)
  }

  lemma RegisterIsMeant(r: Registry, name: string, symbols: seq<ElfSymbol>, base: nat)
    requires WellFormed(r)
    ensures RegisterMeans(r, RegisterSpec(r, name, symbols, base), name, symbols, base,
      if name in r.byName then r.byName[name] else r.nextId)
  {
    ExportsAreThose(symbols, base, r.nextId);
  }

  /** Refused for an unknown module, and for one without further references that another one needs. One with
      further references loses one of them; any other is erased, and its place in the load order closes up. */
  ghost predicate UnloadMeans(r: Registry, r': Registry, id: nat, ok: bool) {
    && (ok <==>
          && id in r.modules
          && (r.modules[id].refCount > 1 || !exists o :: o in r.modules && o != id && id in r.modules[o].deps))
    && r'.nextId == r.nextId
    && (!ok ==> r' == r)
    && (ok && r.modules[id].refCount > 1 ==>
          && r'.modules == r.modules[id := r.modules[id].(refCount := r.modules[id].refCount - 1)]
          && r'.byName == r.byName && r'.loadOrder == r.loadOrder)
    && (ok && r.modules[id].refCount <= 1 ==>
          && r'.modules == r.modules - {id} && r'.byName == r.byName - {r.modules[id].name}
          && OneTakenOut(r.loadOrder, r'.loadOrder, id))
  }

  ghost predicate OneTakenOut(order: seq<nat>, after: seq<nat>, id: nat) {
    exists k :: 0 <= k < |order| && order[k] == id && after == order[..k] + order[k + 1..]
  }

  lemma {:induction false} WithoutNone(order: seq<nat>, id: nat)
    requires id !in order
    ensures Without(order, id) == order
  {
    if order != [] { WithoutNone(order[1..], id); }
  }

  lemma {:induction false} WithoutOne(order: seq<nat>, id: nat, k: nat)
    requires NoDup(order) && k < |order| && order[k] == id
    ensures Without(order, id) == order[..k] + order[k + 1..]
    decreases k
  {
    if k == 0 {
      assert id !in order[1..];
      WithoutNone(order[1..], id);
    } else {
      WithoutOne(order[1..], id, k - 1);
      assert order[1..][..k - 1] == order[1..k] && order[1..][k..] == order[k + 1..];
      assert order[..k] == [order[0]] + order[1..k];
    }
  }

  lemma UnloadIsMeant(r: Registry, id: nat)
    requires WellFormed(r)
    ensures var ok := id in r.modules && (r.modules[id].refCount > 1 || !Needed(r.modules, id));
      UnloadMeans(r, UnloadSpec(r, id), id, ok)
  {
    if id in r.modules {
      var k :| 0 <= k < |r.loadOrder| && r.loadOrder[k] == id;
      WithoutOne(r.loadOrder, id, k);
    }
  }

  lemma RegisterKeeps(r: Registry, name: string, symbols: seq<ElfSymbol>, base: nat)
    requires WellFormed(r)
    ensures WellFormed(RegisterSpec(r, name, symbols, base))
  {
    var r' := RegisterSpec(r, name, symbols, base);
    if name in r.byName {
      BumpKeeps(r, r.byName[name]);
    } else {
      AddKeeps(r, Module(name, [], ExportsFrom(symbols, base, r.nextId), 1));
    }
  }

  lemma BumpKeeps(r: Registry, id: nat)
    requires WellFormed(r) && id in r.modules
    ensures WellFormed(r.(modules := r.modules[id := Bump(r.modules[id])]))
  {
  }

  lemma AddKeeps(r: Registry, m: Module)
    requires WellFormed(r) && m.name !in r.byName
    requires forall e :: e in m.exports ==> e.owner == r.nextId
    ensures WellFormed(Registry(
      r.modules[r.nextId := m], r.byName[m.name := r.nextId], r.loadOrder + [r.nextId], r.nextId + 1))
  {
    assert r.nextId !in r.loadOrder;
    assert NoDup(r.loadOrder + [r.nextId]);
  }

  lemma RetainKeeps(r: Registry, id: nat)
    requires WellFormed(r)
    ensures WellFormed(RetainSpec(r, id))
  {
  }

  lemma DropReferenceKeeps(r: Registry, id: nat)
    requires WellFormed(r) && id in r.modules && r.modules[id].refCount > 1
    ensures WellFormed(r.(modules := r.modules[id := r.modules[id].(refCount := r.modules[id].refCount - 1)]))
  {
  }

  lemma EraseKeeps(r: Registry, id: nat)
    requires WellFormed(r) && id in r.modules
    ensures WellFormed(Registry(r.modules - {id}, r.byName - {r.modules[id].name}, Without(r.loadOrder, id), r.nextId))
  {
    WithoutNoDup(r.loadOrder, id);
  }

  lemma UnloadKeeps(r: Registry, id: nat)
    requires WellFormed(r)
    ensures WellFormed(UnloadSpec(r, id))
  {
    if id in r.modules {
      if r.modules[id].refCount > 1 { DropReferenceKeeps(r, id); } else { EraseKeeps(r, id); }
    }
  }

  // Only the exports and the order matter to resolution.
  lemma {:induction false} ResolveCongruent(m1: map<nat, Module>, m2: map<nat, Module>, order: seq<nat>, name: string)
    requires forall id :: id in order ==> ExportsOf(m1, id) == ExportsOf(m2, id)
    ensures Resolve(m1, order, name) == Resolve(m2, order, name)
  {
    if order != [] { ResolveCongruent(m1, m2, order[1..], name); }
  }

  // std::remove keeps the other elements in their order.
  method EraseId(order: seq<nat>, id: nat) returns (kept: seq<nat>)
    ensures kept == Without(order, id)
  {
    kept := [];
    for k := 0 to |order|
      invariant kept == Without(order[..k], id)
    {
      assert order[..k+1] == order[..k] + [order[k]];
      WithoutAppend(order[..k], order[k], id);
      if order[k] != id { kept := kept + [order[k]]; }
    }
    assert order[..|order|] == order;
  }

  // The loop over the symbol table of a new module.
  method CollectExports(symbols: seq<ElfSymbol>, base: nat, id: nat) returns (exports: seq<Export>)
    ensures exports == ExportsFrom(symbols, base, id)
  {
    exports := [];
    for k := 0 to |symbols|
      invariant exports == ExportsFrom(symbols[..k], base, id)
    {
      var s := symbols[k];
      assert symbols[..k+1][..k] == symbols[..k];
      if s.kind == 2 || s.kind == 1 {
        if s.name != "" && s.value != 0 {
          exports := exports + [Export(s.name, (s.value + base) % U64, id)];
        }
      }
    }
    assert symbols[..|symbols|] == symbols;
  }

  /** The process-wide registry object. */
  class RegistryState {
    var modules: map<nat, Module>
    var byName: map<string, nat>
    var loadOrder: seq<nat>
    var nextId: nat

    constructor ()
      ensures Model() == EMPTY_REGISTRY
    {
      modules, byName, loadOrder, nextId := map[], map[], [], 1;
    }

    ghost function Model(): Registry
      reads this
    {
      Registry(modules, byName, loadOrder, nextId)
    }

    method Register(name: string, symbols: seq<ElfSymbol>, base: nat) returns (id: nat)
      requires WellFormed(Model())
      modifies this
      ensures Model() == RegisterSpec(old(Model()), name, symbols, base) && WellFormed(Model())
      ensures RegisterMeans(old(Model()), Model(), name, symbols, base, id)
    {
      RegisterKeeps(Model(), name, symbols, base);
      RegisterIsMeant(Model(), name, symbols, base);
      if name in byName {
        id := byName[name];
        modules := modules[id := modules[id].(refCount := (modules[id].refCount + 1) % U32)];
        return;
      }
      id := nextId;
      nextId := nextId + 1;
      var exports := CollectExports(symbols, base, id);
      modules := modules[id := Module(name, [], exports, 1)];
      byName := byName[name := id];
      loadOrder := loadOrder + [id];
    }

    method Retain(id: nat) returns (ok: bool)
      modifies this
      ensures Model() == RetainSpec(old(Model()), id) && (ok <==> id in old(modules))
      ensures modules == if !ok then old(modules)
        else old(modules)[id := old(modules)[id].(refCount := (old(modules)[id].refCount + 1) % 0x1_0000_0000)]
      ensures byName == old(byName) && loadOrder == old(loadOrder) && nextId == old(nextId)
    {
      if id !in modules { return false; }
      modules := modules[id := modules[id].(refCount := (modules[id].refCount + 1) % U32)];
      return true;
    }

    // The scan for dependents, over the unordered map.
    method HasDependents(id: nat) returns (needed: bool)
      ensures needed <==> Needed(modules, id)
    {
      var todo := modules.Keys;
      while todo != {}
        invariant todo <= modules.Keys
        invariant forall o :: o in modules && o !in todo && o != id ==> id !in modules[o].deps
        decreases |todo|
      {
        var o :| o in todo;
        todo := todo - {o};
        if o != id {
          var deps := modules[o].deps;
          for k := 0 to |deps|
            invariant id !in deps[..k]
          {
            if deps[k] == id { return true; }
          }
          assert deps[..|deps|] == deps;
        }
      }
      return false;
    }

    method Unload(id: nat) returns (ok: bool)
      requires WellFormed(Model())
      modifies this
      ensures Model() == UnloadSpec(old(Model()), id) && WellFormed(Model())
      ensures UnloadMeans(old(Model()), Model(), id, ok)
    {
      UnloadKeeps(Model(), id);
      UnloadIsMeant(Model(), id);
      if id !in modules { return false; }
      var m := modules[id];
      if m.refCount > 1 {
        modules := modules[id := m.(refCount := m.refCount - 1)];
        return true;
      }
      var needed := HasDependents(id);
      if needed { return false; }
      byName := byName - {m.name};
      loadOrder := EraseId(loadOrder, id);
      modules := modules - {id};
      return true;
    }

    method ResolveSymbol(name: string) returns (r: Option<Export>)
      ensures r == Fresh(Model(), name)
    {
      for k := 0 to |loadOrder|
        invariant Fresh(Model(), name) == Resolve(modules, loadOrder[k..], name)
      {
        var id := loadOrder[k];
        assert loadOrder[k..][1..] == loadOrder[k+1..];
        if id in modules {
          var exports := modules[id].exports;
          for j := 0 to |exports|
            invariant FirstExport(exports, name) == FirstExport(exports[j..], name)
          {
            assert exports[j..][1..] == exports[j+1..];
            if exports[j].name == name { return Some(exports[j]); }
          }
        }
      }
      r := None;
    }
  }
}
