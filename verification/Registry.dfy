/** The module registry: two indexes over the same modules, and the manager that keeps them. */
module Registries {
  import opened Bytes

  /** A module object; `uid` stands for its identity. Its id and type never change after construction. */
  datatype Module = Module(uid: nat, id: string, kind: nat)

  /** The id a module gets at construction. */
  function NewModule(uid: nat, name: string, version: string, kind: nat): Module {
    Module(uid, name + "/" + version, kind)
  }

  /** No other name and version give the id of this name and version. */
  ghost predicate IdIsUnique(name: string, version: string) {
    forall n, v :: NewModule(0, n, v, 0).id == NewModule(0, name, version, 0).id ==> n == name && v == version
  }

  lemma SlashInName(name: string, version: string, i: nat)
    requires i < |name| && name[i] == '/'
    ensures NewModule(0, name[..i], name[i + 1..] + "/" + version, 0).id == NewModule(0, name, version, 0).id
  {
    assert name == name[..i] + "/" + name[i + 1..];
    assert name[..i] + "/" + (name[i + 1..] + "/" + version) == (name[..i] + "/" + name[i + 1..]) + "/" + version;
  }

  lemma SlashInVersion(name: string, version: string, i: nat)
    requires i < |version| && version[i] == '/'
    ensures NewModule(0, name + "/" + version[..i], version[i + 1..], 0).id == NewModule(0, name, version, 0).id
  {
    assert version == version[..i] + "/" + version[i + 1..];
    assert (name + "/" + version[..i]) + "/" + version[i + 1..] == name + "/" + (version[..i] + "/" + version[i + 1..]);
  }

  lemma OneSlashOneReading(name: string, version: string, n: string, v: string)
    requires '/' !in name && '/' !in version
    requires NewModule(0, n, v, 0).id == NewModule(0, name, version, 0).id
    ensures n == name && v == version
  {
    var id := name + "/" + version;
    assert id == n + "/" + v && id[|n|] == '/' && id[|name|] == '/';
    assert forall k :: |name| < k < |id| ==> id[k] == version[k - |name| - 1];
    assert forall k :: 0 <= k < |name| ==> id[k] == name[k];
    assert |n| == |name|;
    assert n == id[..|n|] && name == id[..|name|];
    assert v == id[|n| + 1..] && version == id[|name| + 1..];
  }

  /** An id tells its module apart by name and version exactly when neither of the two holds a slash. */
  lemma IdsIdentify(name: string, version: string)
    ensures IdIsUnique(name, version) <==> '/' !in name && '/' !in version
  {
    if '/' in name {
      var i :| 0 <= i < |name| && name[i] == '/';
      SlashInName(name, version, i);
      assert |name[..i]| < |name|;
    } else if '/' in version {
      var i :| 0 <= i < |version| && version[i] == '/';
      SlashInVersion(name, version, i);
      assert |version[i + 1..]| < |version|;
    } else {
      forall n, v | NewModule(0, n, v, 0).id == NewModule(0, name, version, 0).id
        ensures n == name && v == version
      {
        OneSlashOneReading(name, version, n, v);
      }
    }
  }

  type Index = map<string, Module>

  datatype Registry = Registry(modules: Index, byType: map<nat, Index>)

  const EMPTY := Registry(map[], map[])

  function Bucket(r: Registry, kind: nat): Index {
    if kind in r.byType then r.byType[kind] else map[]
  }

  // ------------------------------------------------- the critical sections

  /** What `del` does under the lock; the module it removed is unloaded after the lock is released. */
  function DelSection(r: Registry, name: string): (Registry, Option<Module>) {
    if name !in r.modules then (r, None)
    else
      var m := r.modules[name];
      var bucket := Bucket(r, m.kind) - {m.id};
      var byType := if bucket == map[] then r.byType - {m.kind} else r.byType[m.kind := bucket];
      (Registry(r.modules - {name}, byType), Some(m))
  }

  /** What `add` does under its second lock. */
  function InsertSection(r: Registry, m: Module): Registry {
    Registry(r.modules[m.id := m], r.byType[m.kind := Bucket(r, m.kind)[m.id := m]])
  }

  // ------------------------------------------------------------- invariants

  /** Every registered module is filed under its own id and type; no bucket is empty or holds a misfiled module. */
  ghost predicate Filed(r: Registry) {
    && (forall id :: id in r.modules ==>
          && r.modules[id].id == id
          && id in Bucket(r, r.modules[id].kind)
          && Bucket(r, r.modules[id].kind)[id] == r.modules[id])
    && (forall kind :: kind in r.byType ==> r.byType[kind] != map[])
    && (forall kind, id :: id in Bucket(r, kind) ==>
          Bucket(r, kind)[id].id == id && Bucket(r, kind)[id].kind == kind)
  }

  /** No bucket holds a module that is not registered. */
  ghost predicate NoStale(r: Registry) {
    forall kind, id :: id in Bucket(r, kind) ==> id in r.modules && r.modules[id] == Bucket(r, kind)[id]
  }

  ghost predicate Agree(r: Registry) {
    Filed(r) && NoStale(r)
  }

  function OfKind(modules: Index, kind: nat): Index {
    map id | id in modules && modules[id].kind == kind :: modules[id]
  }

  /** The indexes agree exactly when the type index is the id index grouped by type, without empty groups. */
  lemma AgreeIsGrouping(r: Registry)
    ensures Agree(r) <==>
            && (forall id :: id in r.modules ==> r.modules[id].id == id)
            && (forall kind :: Bucket(r, kind) == OfKind(r.modules, kind))
            && (forall kind :: kind in r.byType <==> OfKind(r.modules, kind) != map[])
  {
    if Agree(r) {
      forall kind
        ensures Bucket(r, kind) == OfKind(r.modules, kind) && (kind in r.byType <==> OfKind(r.modules, kind) != map[])
      {
        var b, g := Bucket(r, kind), OfKind(r.modules, kind);
        assert forall id :: id in b <==> id in g;
        assert b == g;
      }
    }
    if && (forall id :: id in r.modules ==> r.modules[id].id == id)
       && (forall kind :: Bucket(r, kind) == OfKind(r.modules, kind))
       && (forall kind :: kind in r.byType <==> OfKind(r.modules, kind) != map[]) {
      forall id | id in r.modules
        ensures id in Bucket(r, r.modules[id].kind) && Bucket(r, r.modules[id].kind)[id] == r.modules[id]
      {
        assert id in OfKind(r.modules, r.modules[id].kind);
      }
      forall kind | kind in r.byType
        ensures r.byType[kind] != map[]
      {
        assert Bucket(r, kind) == r.byType[kind];
      }
    }
  }

  /** `del` takes exactly one entry out of each index. */
  lemma DelTakesOne(r: Registry, name: string, m: Module)
    requires name in r.modules && r.modules[name] == m && m.id == name
    requires forall kind :: kind in r.byType ==> r.byType[kind] != map[]
    ensures var r' := DelSection(r, name).0;
            && r'.modules == r.modules - {name}
            && (forall kind :: kind in r'.byType ==> r'.byType[kind] != map[])
            && (forall kind :: Bucket(r', kind) == if kind == m.kind then Bucket(r, kind) - {name} else Bucket(r, kind))
  {
  }

  lemma DelKeepsFiled(r: Registry, name: string)
    requires Filed(r)
    ensures Filed(DelSection(r, name).0)
  {
    hide DelSection, Bucket;
    if name in r.modules {
      DelTakesOne(r, name, r.modules[name]);
    } else {
      DelOfNothing(r, name);
    }
  }

  lemma DelKeepsAgreement(r: Registry, name: string)
    requires Agree(r)
    ensures Agree(DelSection(r, name).0)
  {
    hide DelSection, Bucket;
    DelKeepsFiled(r, name);
    if name in r.modules {
      DelTakesOne(r, name, r.modules[name]);
    } else {
      DelOfNothing(r, name);
    }
  }

  lemma DelOfNothing(r: Registry, name: string)
    requires name !in r.modules
    ensures DelSection(r, name) == (r, None)
  {
  }

  /** `add`'s second section puts one entry into each index. */
  lemma InsertPutsOne(r: Registry, m: Module)
    requires forall kind :: kind in r.byType ==> r.byType[kind] != map[]
    ensures var r' := InsertSection(r, m);
            && r'.modules == r.modules[m.id := m]
            && (forall kind :: kind in r'.byType ==> r'.byType[kind] != map[])
            && (forall kind :: Bucket(r', kind) ==
                               if kind == m.kind then Bucket(r, kind)[m.id := m] else Bucket(r, kind))
  {
    assert m.id in InsertSection(r, m).byType[m.kind];
  }

  lemma InsertKeepsFiled(r: Registry, m: Module)
    requires Filed(r)
    ensures Filed(InsertSection(r, m))
  {
    hide InsertSection, Bucket;
    InsertPutsOne(r, m);
  }

  /** Inserting keeps the indexes in agreement exactly when it does not leave another type's entry behind. */
  lemma InsertKeepsAgreement(r: Registry, m: Module)
    requires Agree(r)
    ensures Agree(InsertSection(r, m)) <==> (m.id in r.modules ==> r.modules[m.id].kind == m.kind)
  {
    hide InsertSection, Bucket;
    InsertKeepsFiled(r, m);
    InsertPutsOne(r, m);
    var r' := InsertSection(r, m);
    if m.id in r.modules && r.modules[m.id].kind != m.kind {
      var kind := r.modules[m.id].kind;
      assert m.id in Bucket(r', kind) && Bucket(r', kind)[m.id] != r'.modules[m.id];
      assert !NoStale(r');
    } else {
      forall kind, id | id in Bucket(r', kind)
        ensures id in r'.modules && r'.modules[id] == Bucket(r', kind)[id]
      {
        assert kind != m.kind ==> id in Bucket(r, kind) && Bucket(r, kind)[id].kind == kind;
      }
      assert NoStale(r');
    }
  }

  // --------------------------------------------- counting registered modules

  /** The registered modules; under `Filed` no module is registered twice, so the set loses nothing. */
  ghost function Registered(r: Registry): multiset<Module> {
    multiset(r.modules.Values)
  }

  ghost predicate KeyedById(modules: Index) {
    forall id :: id in modules ==> modules[id].id == id
  }

  lemma ValuesWithout(modules: Index, name: string)
    requires KeyedById(modules) && name in modules
    ensures (modules - {name}).Values == modules.Values - {modules[name]}
    ensures modules[name] in modules.Values
  {
    var rest := modules - {name};
    forall v | v in modules.Values && v != modules[name]
      ensures v in rest.Values
    {
      assert v.id in rest && rest[v.id] == v;
    }
  }

  lemma ValuesWith(modules: Index, m: Module)
    requires KeyedById(modules) && m.id !in modules
    ensures modules[m.id := m].Values == modules.Values + {m}
    ensures m !in modules.Values
  {
    var more := modules[m.id := m];
    forall v | v in modules.Values
      ensures v in more.Values
    {
      assert v.id in more && more[v.id] == v;
    }
    assert m.id in more && more[m.id] == m;
  }

  lemma TakeOut<T>(s: set<T>, x: T)
    requires x in s
    ensures multiset(s) == multiset(s - {x}) + multiset{x}
  {
  }

  lemma PutIn<T>(s: set<T>, x: T)
    requires x !in s
    ensures multiset(s + {x}) == multiset(s) + multiset{x}
  {
  }

  lemma DelMovesOne(r: Registry, name: string)
    requires Filed(r)
    ensures var (r', gone) := DelSection(r, name);
            Registered(r) == Registered(r') + if gone.Some? then multiset{gone.value} else multiset{}
  {
    if name in r.modules {
      ValuesWithout(r.modules, name);
      TakeOut(r.modules.Values, r.modules[name]);
    }
  }

  lemma ReplaceMovesOne(modules: Index, m: Module)
    requires KeyedById(modules) && m.id in modules
    ensures multiset(modules.Values) + multiset{m} == multiset(modules[m.id := m].Values) + multiset{modules[m.id]}
  {
    hide *;
    var without := modules - {m.id};
    KeyedWithout(modules, m.id);
    ValuesWithout(modules, m.id);
    ValuesWith(without, m);
    TakeOut(modules.Values, modules[m.id]);
    PutIn(without.Values, m);
    assert without[m.id := m] == modules[m.id := m];
  }

  lemma KeyedWithout(modules: Index, name: string)
    requires KeyedById(modules)
    ensures KeyedById(modules - {name})
  {
  }

  lemma InsertMovesOne(r: Registry, m: Module)
    requires Filed(r)
    ensures Registered(r) + multiset{m} ==
            Registered(InsertSection(r, m)) + if m.id in r.modules then multiset{r.modules[m.id]} else multiset{}
  {
    hide Bucket;
    if m.id in r.modules {
      ReplaceMovesOne(r.modules, m);
    } else {
      ValuesWith(r.modules, m);
      PutIn(r.modules.Values, m);
    }
  }
}
