/** The module manager run by one thread: its two indexes, its lock, and the unload callbacks it fires. */
module ModuleManagers {
  import opened Bytes
  import opened Registries

  /** A caller's vector of modules. */
  class ModuleVector {
    var items: seq<Module>

    constructor ()
      ensures items == []
    {
      items := [];
    }

    method PushBack(m: Module)
      modifies this
      ensures items == old(items) + [m]
    {
      items := items + [m];
    }
  }

  // ------------------------------------------------------------- whole operations

  function Unloads(gone: Option<Module>): seq<Module> {
    if gone.Some? then [gone.value] else []
  }

  /** `add` with no other thread between its two sections. */
  function AddAlone(r: Registry, m: Module): (Registry, seq<Module>) {
    var (without, gone) := DelSection(r, m.id);
    (InsertSection(without, m), Unloads(gone))
  }

  function AddAll(r: Registry, ms: seq<Module>): (Registry, seq<Module>) {
    if ms == [] then (r, [])
    else
      var (before, log) := AddAll(r, ms[..|ms| - 1]);
      var (after, more) := AddAlone(before, ms[|ms| - 1]);
      (after, log + more)
  }

  /** The last module of a list that carries an id. */
  function Last(ms: seq<Module>, id: string): Option<Module> {
    if ms == [] then None
    else if ms[|ms| - 1].id == id then Some(ms[|ms| - 1])
    else Last(ms[..|ms| - 1], id)
  }

  /** The modules that the listed files yield; a file that yields none is passed over. */
  function Loaded(files: seq<string>, library: map<string, Module>): seq<Module> {
    if files == [] then []
    else
      var file := files[|files| - 1];
      Loaded(files[..|files| - 1], library) + if file in library then [library[file]] else []
  }

  /** The order of strings: by the first character that differs, a prefix before its extensions. */
  predicate Before(a: string, b: string) {
    a == "" || (b != "" && (a[0] < b[0] || (a[0] == b[0] && Before(a[1..], b[1..]))))
  }

  lemma {:induction false} BeforeIsTotal(a: string, b: string)
    ensures Before(a, b) || Before(b, a)
    decreases |a|
  {
    if a != "" && b != "" && a[0] == b[0] {
      BeforeIsTotal(a[1..], b[1..]);
    }
  }

  lemma {:induction false} BeforeTwice(a: string, b: string, c: string)
    requires Before(a, b) && Before(b, c)
    ensures Before(a, c)
    decreases |a|
  {
    if a != "" && a[0] == b[0] == c[0] {
      BeforeTwice(a[1..], b[1..], c[1..]);
    }
  }

  /** Ascending order: a proper prefix comes first, otherwise the first character that differs decides. */
  ghost predicate Below(a: string, b: string) {
    || a < b
    || exists i :: 0 <= i < |a| && i < |b| && a[..i] == b[..i] && a[i] < b[i]
  }

  lemma {:induction false} BeforeIsBelow(a: string, b: string)
    ensures Before(a, b) && a != b <==> Below(a, b)
    decreases |a|
  {
    if a != "" && b != "" {
      if a[0] == b[0] {
        hide Below;
        BeforeIsBelow(a[1..], b[1..]);
        BelowRest(a, b);
        assert a == [a[0]] + a[1..] && b == [b[0]] + b[1..];
      } else if a[0] < b[0] {
        assert a[..0] == b[..0];
      } else {
        NotBelow(a, b);
      }
    }
  }

  lemma BelowRest(a: string, b: string)
    requires a != "" && b != "" && a[0] == b[0]
    ensures Below(a, b) <==> Below(a[1..], b[1..])
  {
    var a1, b1 := a[1..], b[1..];
    assert a == [a[0]] + a1 && b == [b[0]] + b1;
    if i :| 0 <= i < |a1| && i < |b1| && a1[..i] == b1[..i] && a1[i] < b1[i] {
      assert a[..i + 1] == [a[0]] + a1[..i] && b[..i + 1] == [b[0]] + b1[..i];
      assert a[i + 1] < b[i + 1];
    }
    if i :| 0 <= i < |a| && i < |b| && a[..i] == b[..i] && a[i] < b[i] {
      assert a1[..i - 1] == a[..i][1..] && b1[..i - 1] == b[..i][1..];
    }
  }

  lemma NotBelow(a: string, b: string)
    requires a != "" && b != "" && b[0] < a[0]
    ensures !Below(a, b)
  {
    forall i | 0 < i < |a| && i < |b|
      ensures a[..i] != b[..i]
    {
      assert a[..i][0] != b[..i][0];
    }
  }

  ghost predicate InOrder(files: seq<string>) {
    forall i, j :: 0 <= i < j < |files| ==> Before(files[i], files[j])
  }

  function Insert(file: string, sorted: seq<string>): (r: seq<string>)
    ensures multiset(r) == multiset(sorted) + multiset{file}
  {
    if sorted == [] then [file]
    else
      assert sorted == [sorted[0]] + sorted[1..];
      if Before(file, sorted[0]) then [file] + sorted
      else [sorted[0]] + Insert(file, sorted[1..])
  }

  lemma {:induction false} InsertKeepsOrder(file: string, sorted: seq<string>)
    requires InOrder(sorted)
    ensures InOrder(Insert(file, sorted))
  {
    if sorted != [] {
      var first, rest := sorted[0], sorted[1..];
      if Before(file, first) {
        forall j | 0 <= j < |sorted|
          ensures Before(file, sorted[j])
        {
          if j > 0 {
            BeforeTwice(file, first, sorted[j]);
          }
        }
      } else {
        BeforeIsTotal(file, first);
        InsertKeepsOrder(file, rest);
        var r := Insert(file, rest);
        forall j | 0 <= j < |r|
          ensures Before(first, r[j])
        {
          assert r[j] in multiset(r);
          assert r[j] == file || r[j] in rest;
        }
      }
    }
  }

  /** `std::sort` over the listing. */
  function SortedFiles(files: seq<string>): (r: seq<string>)
    ensures multiset(r) == multiset(files)
  {
    if files == [] then []
    else
      assert files == [files[0]] + files[1..];
      Insert(files[0], SortedFiles(files[1..]))
  }

  lemma {:induction false} SortingSorts(files: seq<string>)
    ensures InOrder(SortedFiles(files))
  {
    if files != [] {
      SortingSorts(files[1..]);
      InsertKeepsOrder(files[0], SortedFiles(files[1..]));
    }
  }

  /** Each id is bound to the module of the greatest listed path that yields it, in whatever order paths are listed. */
  ghost predicate GreatestPathWins(files: seq<string>, library: map<string, Module>, modules: Index) {
    && (forall f :: f in files && f in library ==> library[f].id in modules)
    && (forall id :: id in modules ==> exists f :: GreatestFor(files, library, id, f) && modules[id] == library[f])
  }

  ghost predicate GreatestFor(files: seq<string>, library: map<string, Module>, id: string, f: string) {
    && f in files && f in library && library[f].id == id
    && forall g :: g in files && g in library && library[g].id == id ==> g == f || Below(g, f)
  }

  lemma LastSortedIsGreatest(files: seq<string>, library: map<string, Module>, id: string, k: int)
    requires YieldsLast(SortedFiles(files), library, id, k)
    ensures GreatestFor(files, library, id, SortedFiles(files)[k])
  {
    var sorted := SortedFiles(files);
    SortingSorts(files);
    assert sorted[k] in multiset(files);
    forall g | g in files && g in library && library[g].id == id
      ensures g == sorted[k] || Below(g, sorted[k])
    {
      assert g in multiset(sorted);
      var j :| 0 <= j < |sorted| && sorted[j] == g;
      BeforeIsBelow(g, sorted[k]);
    }
  }

  lemma SortedOutcome(files: seq<string>, library: map<string, Module>, r: Registry, gone: seq<Module>)
    requires InitOutcome(SortedFiles(files), library, r, gone)
    ensures GreatestPathWins(files, library, r.modules)
  {
    hide Agree, Registered, YieldsLast, SortedFiles;
    var sorted := SortedFiles(files);
    forall f | f in files && f in library
      ensures library[f].id in r.modules
    {
      assert f in multiset(sorted);
      var k :| 0 <= k < |sorted| && sorted[k] == f;
    }
    forall id | id in r.modules
      ensures exists f :: GreatestFor(files, library, id, f) && r.modules[id] == library[f]
    {
      OutcomeFor(files, library, r, gone, id);
    }
  }

  lemma OutcomeFor(files: seq<string>, library: map<string, Module>, r: Registry, gone: seq<Module>, id: string)
    requires InitOutcome(SortedFiles(files), library, r, gone) && id in r.modules
    ensures exists f :: GreatestFor(files, library, id, f) && r.modules[id] == library[f]
  {
    hide Agree, Registered, SortedFiles;
    var k :| YieldsLast(SortedFiles(files), library, id, k) && r.modules[id] == library[SortedFiles(files)[k]];
    LastSortedIsGreatest(files, library, id, k);
  }

  /** File `k` is the last one that yields a module with this id. */
  ghost predicate YieldsLast(files: seq<string>, library: map<string, Module>, id: string, k: int) {
    && 0 <= k < |files| && files[k] in library && library[files[k]].id == id
    && forall j :: k < j < |files| && files[j] in library ==> library[files[j]].id != id
  }

  lemma {:induction false} LastIsFromLastFile(files: seq<string>, library: map<string, Module>, id: string)
    ensures Last(Loaded(files, library), id).None? ==>
              forall k :: 0 <= k < |files| && files[k] in library ==> library[files[k]].id != id
    ensures Last(Loaded(files, library), id).Some? ==>
              exists k :: YieldsLast(files, library, id, k) &&
                          Last(Loaded(files, library), id).value == library[files[k]]
  {
    if files != [] {
      var n := |files| - 1;
      LastIsFromLastFile(files[..n], library, id);
      var before := Loaded(files[..n], library);
      if files[n] in library {
        assert (before + [library[files[n]]])[..|before|] == before;
      } else {
        assert Loaded(files, library) == before;
      }
      if files[n] in library && library[files[n]].id == id {
        assert YieldsLast(files, library, id, n);
      } else if Last(before, id).Some? {
        var k :| YieldsLast(files[..n], library, id, k) && Last(before, id).value == library[files[..n][k]];
        assert YieldsLast(files, library, id, k);
      }
    }
  }

  /** What loading the listed files into an empty registry amounts to. */
  ghost predicate InitOutcome(files: seq<string>, library: map<string, Module>, r: Registry, gone: seq<Module>) {
    && Agree(r)
    && (forall id :: id in r.modules ==>
          exists k :: YieldsLast(files, library, id, k) && r.modules[id] == library[files[k]])
    && (forall k :: 0 <= k < |files| && files[k] in library ==> library[files[k]].id in r.modules)
    && multiset(Loaded(files, library)) == Registered(r) + multiset(gone)
  }

  /** Each id ends with the module of the last file that yields it; each superseded module is unloaded once. */
  lemma LoadingFilesIntoEmpty(files: seq<string>, library: map<string, Module>)
    ensures var (r, gone) := AddAll(EMPTY, Loaded(files, library)); InitOutcome(files, library, r, gone)
  {
    hide AddAll, Loaded, Last, Agree, Registered;
    var ms := Loaded(files, library);
    var r := AddAll(EMPTY, ms).0;
    EmptyAgrees();
    AddAllLastWins(EMPTY, ms);
    AddAllConserves(EMPTY, ms);
    forall id | id in r.modules
      ensures exists k :: YieldsLast(files, library, id, k) && r.modules[id] == library[files[k]]
    {
      LastIsFromLastFile(files, library, id);
    }
    forall k | 0 <= k < |files| && files[k] in library
      ensures library[files[k]].id in r.modules
    {
      LastIsFromLastFile(files, library, library[files[k]].id);
    }
  }

  lemma EmptyAgrees()
    ensures Filed(EMPTY) && Agree(EMPTY) && Registered(EMPTY) == multiset{}
  {
  }

  /** A lone `add` keeps the indexes in agreement, whatever types the old and the new module have. */
  lemma AddAloneKeepsAgreement(r: Registry, m: Module)
    requires Filed(r)
    ensures Filed(AddAlone(r, m).0)
    ensures Agree(r) ==> Agree(AddAlone(r, m).0)
  {
    hide InsertSection, Bucket, Filed, NoStale;
    DelKeepsFiled(r, m.id);
    var without := DelSection(r, m.id).0;
    InsertKeepsFiled(without, m);
    if Agree(r) {
      DelKeepsAgreement(r, m.id);
      InsertKeepsAgreement(without, m);
    }
  }

  lemma AddAloneConserves(r: Registry, m: Module)
    requires Filed(r)
    ensures Registered(r) + multiset{m} == Registered(AddAlone(r, m).0) + multiset(AddAlone(r, m).1)
  {
    hide InsertSection, Bucket, Filed, Registered;
    var (without, gone) := DelSection(r, m.id);
    DelKeepsFiled(r, m.id);
    DelMovesOne(r, m.id);
    InsertMovesOne(without, m);
    var log := if gone.Some? then multiset{gone.value} else multiset{};
    Exchange(Registered(r), Registered(without), log, multiset{m}, Registered(InsertSection(without, m)));
  }

  lemma Exchange(a: multiset<Module>, b: multiset<Module>, g: multiset<Module>, x: multiset<Module>,
                 c: multiset<Module>)
    requires a == b + g && b + x == c
    ensures a + x == c + g
  {
  }

  lemma Prolong(a: multiset<Module>, front: multiset<Module>, b: multiset<Module>, log: multiset<Module>,
                x: multiset<Module>, c: multiset<Module>, more: multiset<Module>)
    requires a + front == b + log && b + x == c + more
    ensures a + (front + x) == c + (log + more)
  {
    assert a + (front + x) == (a + front) + x;
    assert (b + log) + x == (b + x) + log;
    assert (c + more) + log == c + (log + more);
  }

  /** Adding modules one after another binds each id to the last of them that carries it. */
  lemma {:induction false} AddAllLastWins(r: Registry, ms: seq<Module>)
    requires Filed(r)
    ensures var r' := AddAll(r, ms).0;
            && Filed(r')
            && (Agree(r) ==> Agree(r'))
            && (forall id :: id in r'.modules <==> id in r.modules || Last(ms, id).Some?)
            && (forall id :: id in r'.modules ==>
                  r'.modules[id] == if Last(ms, id).Some? then Last(ms, id).value else r.modules[id])
  {
    hide Bucket, Filed, NoStale, Agree;
    if ms != [] {
      AddAllLastWins(r, ms[..|ms| - 1]);
      AddAloneKeepsAgreement(AddAll(r, ms[..|ms| - 1]).0, ms[|ms| - 1]);
    }
  }

  /** Nothing added is lost: it is registered, or it was unloaded exactly once. */
  lemma {:induction false} AddAllConserves(r: Registry, ms: seq<Module>)
    requires Filed(r)
    ensures Registered(r) + multiset(ms) == Registered(AddAll(r, ms).0) + multiset(AddAll(r, ms).1)
  {
    hide AddAlone, Registered, Filed, Agree, Last;
    if ms != [] {
      var (before, log) := AddAll(r, ms[..|ms| - 1]);
      var m := ms[|ms| - 1];
      AddAllLastWins(r, ms[..|ms| - 1]);
      AddAllConserves(r, ms[..|ms| - 1]);
      AddAloneConserves(before, m);
      var (after, more) := AddAlone(before, m);
      Prolong(Registered(r), multiset(ms[..|ms| - 1]), Registered(before), multiset(log), multiset{m},
              Registered(after), multiset(more));
      assert ms == ms[..|ms| - 1] + [m];
    }
  }

  lemma NothingLoaded(files: seq<string>, r: Registry, library: map<string, Module>)
    ensures Loaded(files[..0], library) == [] && AddAll(r, []) == (r, [])
  {
  }

  lemma LoadedOneMore(files: seq<string>, i: nat, library: map<string, Module>)
    requires i < |files|
    ensures var before := Loaded(files[..i], library);
            Loaded(files[..i + 1], library) == if files[i] in library then before + [library[files[i]]] else before
  {
    assert files[..i + 1][..i] == files[..i];
  }

  lemma AddAllOneMore(r: Registry, ms: seq<Module>, m: Module)
    ensures var (before, log) := AddAll(r, ms);
            AddAll(r, ms + [m]) == (AddAlone(before, m).0, log + AddAlone(before, m).1)
  {
    assert (ms + [m])[..|ms|] == ms;
  }

  // ---------------------------------------------------------------- listings

  /** A listing names every module of an index once, in some order. */
  ghost predicate Lists(ms: seq<Module>, modules: Index) {
    multiset(ms) == multiset(modules.Values)
  }

  function KeepKind(ms: seq<Module>, kind: nat): seq<Module> {
    if ms == [] then [] else (if ms[0].kind == kind then [ms[0]] else []) + KeepKind(ms[1..], kind)
  }

  lemma {:induction false} KeepKindCounts(ms: seq<Module>, kind: nat, m: Module)
    ensures multiset(KeepKind(ms, kind))[m] == if m.kind == kind then multiset(ms)[m] else 0
  {
    if ms != [] {
      KeepKindCounts(ms[1..], kind, m);
      assert ms == [ms[0]] + ms[1..];
    }
  }

  /** While the indexes agree, a listing by type is the whole listing with the other types left out. */
  lemma ListByTypeFilters(r: Registry, all: seq<Module>, some: seq<Module>, kind: nat)
    requires Agree(r) && Lists(all, r.modules) && Lists(some, Bucket(r, kind))
    ensures multiset(some) == multiset(KeepKind(all, kind))
  {
    hide Bucket, OfKind, Filed, KeyedById, NoStale;
    assert KeyedById(r.modules) && Bucket(r, kind) == OfKind(r.modules, kind) by {
      AgreeIsGrouping(r);
      FiledKeys(r);
    }
    GroupedListing(r.modules, all, some, kind);
  }

  lemma FiledKeys(r: Registry)
    requires Filed(r)
    ensures KeyedById(r.modules)
  {
  }

  lemma FiledBuckets(r: Registry, kind: nat)
    requires Filed(r)
    ensures KeyedById(Bucket(r, kind))
  {
  }

  lemma GroupedListing(modules: Index, all: seq<Module>, some: seq<Module>, kind: nat)
    requires KeyedById(modules) && Lists(all, modules) && Lists(some, OfKind(modules, kind))
    ensures multiset(some) == multiset(KeepKind(all, kind))
  {
    GroupCounts(modules, kind);
    forall m
      ensures multiset(some)[m] == multiset(KeepKind(all, kind))[m]
    {
      KeepKindCounts(all, kind, m);
    }
  }

  lemma GroupCounts(modules: Index, kind: nat)
    requires KeyedById(modules)
    ensures forall m :: m in OfKind(modules, kind).Values <==> m in modules.Values && m.kind == kind
  {
    forall m | m in modules.Values && m.kind == kind
      ensures m in OfKind(modules, kind).Values
    {
      assert m.id in OfKind(modules, kind) && OfKind(modules, kind)[m.id] == m;
    }
  }

  lemma ValuesMore(modules: Index, seen: set<string>, id: string)
    requires KeyedById(modules) && seen <= modules.Keys && id in modules && id !in seen
    ensures multiset(set i | i in seen + {id} :: modules[i]) ==
            multiset(set i | i in seen :: modules[i]) + multiset{modules[id]}
  {
    var values := set i | i in seen :: modules[i];
    assert forall i :: i in seen ==> modules[i].id == i;
    assert modules[id] !in values;
    assert (set i | i in seen + {id} :: modules[i]) == values + {modules[id]};
    PutIn(values, modules[id]);
  }

  lemma GatherOne(modules: Index, seen: set<string>, id: string, found: seq<Module>)
    requires KeyedById(modules) && seen <= modules.Keys && id in modules && id !in seen
    requires multiset(found) == multiset(set i | i in seen :: modules[i])
    ensures multiset(found + [modules[id]]) == multiset(set i | i in seen + {id} :: modules[i])
  {
    ValuesMore(modules, seen, id);
  }

  /** Appends an index's modules to a vector. */
  method PushAll(modules: Index, ms: ModuleVector)
    requires KeyedById(modules)
    modifies ms
    ensures exists found :: ms.items == old(ms.items) + found && Lists(found, modules)
  {
    var left := modules.Keys;
    ghost var found: seq<Module> := [];
    while left != {}
      invariant left <= modules.Keys
      invariant ms.items == old(ms.items) + found
      invariant multiset(found) == multiset(set i | i in modules.Keys - left :: modules[i])
      decreases left
    {
      var id :| id in left;
      GatherOne(modules, modules.Keys - left, id, found);
      assert modules.Keys - (left - {id}) == modules.Keys - left + {id};
      ms.PushBack(modules[id]);
      found := found + [modules[id]];
      left := left - {id};
    }
    assert (set i | i in modules.Keys - left :: modules[i]) == modules.Values;
    assert Lists(found, modules);
  }

  /** `r'` is `r` after `del` of each id in `gone`. */
  ghost predicate Without(r: Registry, gone: set<string>, r': Registry) {
    && r'.modules == r.modules - gone
    && (forall kind, id :: id in Bucket(r', kind) <==>
          id in Bucket(r, kind) && !(id in gone && id in r.modules && r.modules[id].kind == kind))
    && (forall kind, id :: id in Bucket(r', kind) ==> Bucket(r', kind)[id] == Bucket(r, kind)[id])
  }

  lemma WithoutNone(r: Registry)
    ensures Without(r, {}, r)
  {
    assert r.modules - {} == r.modules;
  }

  lemma FiledTakesOne(r: Registry, name: string)
    requires Filed(r) && name in r.modules
    ensures var (r', gone) := DelSection(r, name);
            && gone == Some(r.modules[name])
            && r'.modules == r.modules - {name}
            && (forall kind :: Bucket(r', kind) ==
                               if kind == r.modules[name].kind then Bucket(r, kind) - {name} else Bucket(r, kind))
  {
    DelTakesOne(r, name, r.modules[name]);
  }

  lemma WithoutOneMore(r: Registry, gone: set<string>, id: string, r': Registry)
    requires Filed(r) && Filed(r') && Without(r, gone, r')
    requires id in r.modules && id !in gone
    ensures DelSection(r', id).1 == Some(r.modules[id])
    ensures Without(r, gone + {id}, DelSection(r', id).0)
  {
    hide DelSection, Bucket, Filed;
    FiledTakesOne(r', id);
    assert r.modules - gone - {id} == r.modules - (gone + {id});
  }

  lemma NothingLeftInBucket(r: Registry, r': Registry, kind: nat)
    requires Agree(r) && Without(r, r.modules.Keys, r')
    ensures Bucket(r', kind) == map[]
  {
    forall id
      ensures id !in Bucket(r', kind)
    {
      if id in Bucket(r, kind) {
        assert Bucket(r, kind)[id].kind == kind;
        assert r.modules[id] == Bucket(r, kind)[id];
      }
    }
  }

  /** Once every registered id is deleted the registry is empty, unless the type index held stale entries. */
  lemma WithoutAll(r: Registry, r': Registry)
    requires Agree(r) && Filed(r') && Without(r, r.modules.Keys, r')
    ensures r' == EMPTY
  {
    hide Agree;
    forall kind
      ensures kind !in r'.byType
    {
      NothingLeftInBucket(r, r', kind);
    }
    assert r'.modules == map[] && r'.byType == map[];
  }

  // -------------------------------------------------------------- the manager

  class ModuleManager {
    var modules: Index
    var byType: map<nat, Index>
    ghost var locked: bool
    ghost var unloaded: seq<Module>

    ghost function State(): Registry
      reads `modules, `byType
    {
      Registry(modules, byType)
    }

    ghost predicate Valid()
      reads this
    {
      !locked && Filed(State())
    }

    constructor ()
      ensures Valid() && State() == EMPTY && unloaded == []
    {
      modules, byType, locked, unloaded := map[], map[], false, [];
    }

    /** The module's own callback: it must not run while the manager's lock is held. */
    ghost method OnUnload(m: Module)
      requires !locked
      modifies `unloaded
      ensures unloaded == old(unloaded) + [m]
    {
      unloaded := unloaded + [m];
    }

    method Del(name: string)
      requires Valid()
      modifies this
      ensures Valid()
      ensures State() == DelSection(old(State()), name).0
      ensures unloaded == old(unloaded) + Unloads(DelSection(old(State()), name).1)
    {
      hide Filed;
      DelKeepsFiled(State(), name);
      locked := true;
      if name !in modules {
        locked := false;
        return;
      }
      var m := modules[name];
      modules := modules - {name};
      var bucket := if m.kind in byType then byType[m.kind] else map[];
      byType := byType[m.kind := bucket - {m.id}];
      if byType[m.kind] == map[] {
        byType := byType - {m.kind};
      }
      assert byType == DelSection(old(State()), name).0.byType;
      locked := false;
      OnUnload(m);
    }

    method Add(m: Module)
      requires Valid()
      modifies this
      ensures Valid()
      ensures State() == AddAlone(old(State()), m).0
      ensures unloaded == old(unloaded) + AddAlone(old(State()), m).1
      ensures old(Agree(State())) ==> Agree(State())
    {
      hide Filed, NoStale, DelSection;
      AddAloneKeepsAgreement(State(), m);
      Del(m.id);
      locked := true;
      modules := modules[m.id := m];
      var bucket := if m.kind in byType then byType[m.kind] else map[];
      byType := byType[m.kind := bucket[m.id := m]];
      locked := false;
    }

    /** Unloads whatever was registered; only entries that were already stale stay in the type index. */
    method DelAll()
      requires Valid()
      modifies this
      ensures Valid()
      ensures Without(old(State()), old(modules.Keys), State())
      ensures old(Agree(State())) ==> State() == EMPTY
      ensures exists gone :: unloaded == old(unloaded) + gone && Lists(gone, old(modules))
    {
      hide Filed, Without, Bucket, DelSection, Agree;
      var snapshot := modules;
      var left := snapshot.Keys;
      ghost var gone: seq<Module> := [];
      FiledKeys(State());
      WithoutNone(State());
      assert modules.Keys - snapshot.Keys == {};
      while left != {}
        invariant Valid() && left <= snapshot.Keys
        invariant Without(old(State()), snapshot.Keys - left, State())
        invariant unloaded == old(unloaded) + gone
        invariant multiset(gone) == multiset(set i | i in snapshot.Keys - left :: snapshot[i])
        decreases left
      {
        var id :| id in left;
        WithoutOneMore(old(State()), snapshot.Keys - left, id, State());
        GatherOne(snapshot, snapshot.Keys - left, id, gone);
        assert snapshot.Keys - (left - {id}) == snapshot.Keys - left + {id};
        Del(id);
        gone := gone + [snapshot[id]];
        left := left - {id};
      }
      assert snapshot.Keys - left == snapshot.Keys;
      if old(Agree(State())) {
        WithoutAll(old(State()), State());
      }
      assert (set i | i in snapshot.Keys :: snapshot[i]) == snapshot.Values;
      assert Lists(gone, snapshot);
    }

    /** Loads the modules of the listed files in sorted order; `library` says which files yield a module. */
    method Init(files: seq<string>, library: map<string, Module>)
      requires Valid()
      modifies this
      ensures Valid()
      ensures State() == AddAll(old(State()), Loaded(SortedFiles(files), library)).0
      ensures unloaded == old(unloaded) + AddAll(old(State()), Loaded(SortedFiles(files), library)).1
      ensures old(State()) == EMPTY ==>
        && InitOutcome(SortedFiles(files), library, State(), unloaded[old(|unloaded|)..])
        && GreatestPathWins(files, library, modules)
    {
      hide Filed, AddAlone, AddAll, Loaded, InitOutcome, SortedFiles, GreatestPathWins;
      var sorted := SortedFiles(files);
      NothingLoaded(sorted, State(), library);
      for i := 0 to |sorted|
        invariant Valid()
        invariant State() == AddAll(old(State()), Loaded(sorted[..i], library)).0
        invariant unloaded == old(unloaded) + AddAll(old(State()), Loaded(sorted[..i], library)).1
      {
        LoadedOneMore(sorted, i, library);
        InitModule(sorted[i], library, Loaded(sorted[..i], library), old(State()));
      }
      assert sorted[..|sorted|] == sorted;
      LoadingFilesIntoEmpty(sorted, library);
      if old(State()) == EMPTY {
        SortedOutcome(files, library, State(), unloaded[old(|unloaded|)..]);
      }
    }

    /** Adds the module that a file yields, if it yields one, to those loaded before. */
    method InitModule(file: string, library: map<string, Module>, ghost before: seq<Module>, ghost start: Registry)
      requires Valid() && State() == AddAll(start, before).0
      modifies this
      ensures Valid()
      ensures var ms := if file in library then before + [library[file]] else before;
              && State() == AddAll(start, ms).0
              && AddAll(start, before).1 <= AddAll(start, ms).1
              && unloaded == old(unloaded) + AddAll(start, ms).1[|AddAll(start, before).1|..]
    {
      hide Filed, AddAlone, AddAll;
      if file in library {
        AddAllOneMore(start, before, library[file]);
        Add(library[file]);
      }
    }

    method Get(name: string) returns (m: Option<Module>)
      ensures m == if name in modules then Some(modules[name]) else None
    {
      m := if name in modules then Some(modules[name]) else None;
    }

    method ListAll(ms: ModuleVector)
      requires Valid()
      modifies ms
      ensures exists found :: ms.items == old(ms.items) + found && Lists(found, modules)
    {
      PushAll(modules, ms);
    }

    method ListByType(kind: nat, ms: ModuleVector)
      requires Valid()
      modifies ms
      ensures exists found :: ms.items == old(ms.items) + found && Lists(found, Bucket(State(), kind))
    {
      if kind !in byType {
        assert Lists([], Bucket(State(), kind)) && ms.items == ms.items + [];
        return;
      }
      FiledBuckets(State(), kind);
      PushAll(byType[kind], ms);
    }
  }
}
