/** The configuration store: loading trees and directories, and when skipping unchanged files is harmless. */
module ConfigReloads {
  import opened Bytes
  import opened Configs
  import ConfigPaths

  /** One version of a configuration file; `root` is `None` when loading it throws. */
  datatype File = File(path: string, mtime: nat, root: Option<Node>)

  /** The variables, and the modification time each file had when it was last looked at. */
  datatype Store = Store(vars: Variables, seen: map<string, nat>)

  datatype Call = Call(files: seq<File>, force: bool)

  // --------------------------------------------------------- what a call does

  /** A file that was never seen counts as seen at time zero. */
  predicate Skips(s: Store, f: File, force: bool) {
    !force && f.mtime == if f.path in s.seen then s.seen[f.path] else 0
  }

  function LoadFile(s: Store, conv: Conversion, f: File, force: bool): Store {
    var vars := if Skips(s, f, force) || f.root.None? then s.vars else LoadTree(s.vars, conv, f.root.value);
    Store(vars, s.seen[f.path := f.mtime])
  }

  function LoadFiles(s: Store, conv: Conversion, files: seq<File>, force: bool): Store {
    if files == [] then s
    else LoadFile(LoadFiles(s, conv, files[..|files| - 1], force), conv, files[|files| - 1], force)
  }

  function AfterCalls(s: Store, conv: Conversion, calls: seq<Call>): Store {
    if calls == [] then s
    else LoadFiles(AfterCalls(s, conv, calls[..|calls| - 1]), conv, calls[|calls| - 1].files, calls[|calls| - 1].force)
  }

  // ------------------------------------------------------- the store itself

  class EntryList {
    var items: seq<Entry>

    constructor ()
      ensures items == []
    {
      items := [];
    }

    method PushBack(e: Entry)
      modifies this
      ensures items == old(items) + [e]
    {
      items := items + [e];
    }
  }

  /** Appends the flattened tree to the caller's list. */
  method ListAllMember(prefix: string, node: Node, output: EntryList)
    modifies output
    ensures output.items == old(output.items) + Flatten(prefix, node)
    ensures ConfigPaths.FlattensNodes(prefix, node, output.items[|old(output.items)|..])
    decreases node
  {
    hide ValidName, JoinName, FlattenMembers, ConfigPaths.FlattensNodes;
    ConfigPaths.FlatteningFollowsPaths(prefix, node);
    if !ValidName(prefix) {
      return;
    }
    output.PushBack(Entry(prefix, node.text));
    if node.Map? {
      ghost var head := output.items;
      NoMembers(head, prefix, node);
      for i := 0 to |node.members|
        invariant output.items == head + FlattenMembers(prefix, node, i)
      {
        OneMoreMember(head, prefix, node, i);
        var m := node.members[i];
        ListAllMember(JoinName(prefix, m.key), m.node, output);
      }
    }
  }

  lemma NoMembers(head: seq<Entry>, prefix: string, node: Node)
    requires node.Map?
    ensures head + FlattenMembers(prefix, node, 0) == head
  {
  }

  lemma OneMoreMember(head: seq<Entry>, prefix: string, node: Node, i: nat)
    requires node.Map? && i < |node.members|
    ensures var m := node.members[i];
            head + FlattenMembers(prefix, node, i + 1) ==
            (head + FlattenMembers(prefix, node, i)) + Flatten(JoinName(prefix, m.key), m.node)
  {
    hide Flatten, JoinName;
  }

  class Config {
    const conv: Conversion
    var vars: Variables
    var seen: map<string, nat>

    ghost function State(): Store
      reads this
    {
      Store(vars, seen)
    }

    constructor (conv: Conversion, vars: Variables)
      ensures State() == Store(vars, map[]) && this.conv == conv
    {
      this.conv, this.vars, seen := conv, vars, map[];
    }

    method LookupBase(name: string) returns (value: Option<string>)
      ensures value == if name in vars then Some(vars[name]) else None
    {
      value := if name in vars then Some(vars[name]) else None;
    }

    /** A conversion that throws leaves the variable as it was. */
    method FromString(name: string, text: string)
      requires name in vars
      modifies `vars
      ensures vars == if conv(name, text).Some? then old(vars)[name := conv(name, text).value] else old(vars)
    {
      var value := conv(name, text);
      if value.Some? {
        vars := vars[name := value.value];
      }
    }

    method LoadFromYaml(root: Node)
      modifies `vars
      ensures vars == LoadTree(old(vars), conv, root)
      ensures vars == old(vars) + Effects(old(vars.Keys), conv, root)
      ensures ConfigPaths.LoadsNodes(old(vars), conv, root, vars)
    {
      hide Effects, Flatten, ConfigPaths.LoadsNodes, ConfigPaths.FlattensNodes;
      var all := new EntryList();
      ListAllMember("", root, all);
      var entries := all.items;
      assert entries == Flatten("", root);
      for i := 0 to |entries|
        invariant vars == SetAll(old(vars), conv, entries[..i])
      {
        assert entries[..i + 1][..i] == entries[..i];
        var e := entries[i];
        if e.name == "" {
          continue;
        }
        var key := Lower(e.name);
        var variable := LookupBase(key);
        if variable.Some? {
          FromString(key, e.text);
        }
      }
      assert entries[..|entries|] == entries;
      LoadingSetsLastValues(old(vars), conv, root);
      ConfigPaths.LoadingFollowsPaths(old(vars), conv, root);
    }

    method LoadFromConfDir(files: seq<File>, force: bool)
      modifies this
      ensures State() == LoadFiles(old(State()), conv, files, force)
    {
      hide LoadTree, Effects, ConfigPaths.LoadsNodes;
      for i := 0 to |files|
        invariant State() == LoadFiles(old(State()), conv, files[..i], force)
      {
        assert files[..i + 1][..i] == files[..i];
        var f := files[i];
        if !force {
          if f.path !in seen {
            seen := seen[f.path := 0];
          }
          if seen[f.path] == f.mtime {
            continue;
          }
        }
        seen := seen[f.path := f.mtime];
        if f.root.Some? {
          LoadFromYaml(f.root.value);
        }
      }
      assert files[..|files|] == files;
    }
  }

  // ------------------------------------------- skipping against full reloading

  /** What a version of a file sets; one that fails to load sets nothing. */
  function FileEffects(names: set<string>, conv: Conversion, f: File): Variables {
    if f.root.Some? then Effects(names, conv, f.root.value) else map[]
  }

  ghost predicate AgreeOn(a: Variables, b: Variables) {
    forall x :: x in a && x in b ==> a[x] == b[x]
  }

  lemma LoadFileMerges(s: Store, conv: Conversion, f: File, force: bool)
    ensures var e := FileEffects(s.vars.Keys, conv, f);
            && e.Keys <= s.vars.Keys
            && LoadFile(s, conv, f, force).vars == (if Skips(s, f, force) then s.vars else s.vars + e)
            && LoadFile(s, conv, f, force).vars.Keys == s.vars.Keys
  {
    hide LoadTree, Effects;
    if f.root.Some? {
      LoadingSetsLastValues(s.vars, conv, f.root.value);
    } else {
      assert s.vars + map[] == s.vars;
    }
  }

  /**
   * When skipping is harmless over a set of file versions: versions of one path with one modification time set the
   * same values, a version with modification time zero sets nothing, and two paths never set a variable differently.
   */
  ghost predicate Harmless(u: set<File>, names: set<string>, conv: Conversion) {
    && (forall f, g :: f in u && g in u && f.path == g.path && f.mtime == g.mtime ==>
          FileEffects(names, conv, f) == FileEffects(names, conv, g))
    && (forall f :: f in u && f.mtime == 0 ==> FileEffects(names, conv, f) == map[])
    && (forall f, g :: f in u && g in u && f.path != g.path ==>
          AgreeOn(FileEffects(names, conv, f), FileEffects(names, conv, g)))
  }

  /** The variables still hold what the version last seen of each path sets. */
  ghost predicate UpToDate(s: Store, u: set<File>, names: set<string>, conv: Conversion) {
    && s.vars.Keys == names
    && (forall f :: f in u && f.path in s.seen && s.seen[f.path] == f.mtime ==>
          Holds(s.vars, FileEffects(names, conv, f)))
  }

  ghost predicate Holds(vars: Variables, e: Variables) {
    forall x :: x in e ==> x in vars && vars[x] == e[x]
  }

  lemma MergeHolds(vars: Variables, e: Variables, d: Variables)
    requires Holds(vars, d) && AgreeOn(e, d)
    ensures Holds(vars + e, d) && Holds(vars + e, e)
  {
  }

  lemma HoldsMerge(vars: Variables, e: Variables)
    requires Holds(vars, e)
    ensures vars + e == vars
  {
  }

  /** Skipped or not, a file leaves the variables as if it had been loaded. */
  lemma FileIsAsLoaded(s: Store, u: set<File>, conv: Conversion, f: File, force: bool)
    requires Harmless(u, s.vars.Keys, conv) && UpToDate(s, u, s.vars.Keys, conv) && f in u
    ensures LoadFile(s, conv, f, force).vars == s.vars + FileEffects(s.vars.Keys, conv, f)
    ensures UpToDate(LoadFile(s, conv, f, force), u, s.vars.Keys, conv)
  {
    hide LoadFile, FileEffects, Holds, AgreeOn;
    var names := s.vars.Keys;
    var e := FileEffects(names, conv, f);
    var s' := LoadFile(s, conv, f, force);
    LoadFileMerges(s, conv, f, force);
    LoadFileSees(s, conv, f, force);
    if Skips(s, f, force) {
      NothingHolds(s.vars);
      HoldsMerge(s.vars, e);
    }
    forall g | g in u && g.path in s'.seen && s'.seen[g.path] == g.mtime
      ensures Holds(s'.vars, FileEffects(names, conv, g))
    {
      if g.path == f.path {
        MergeHoldsItself(s.vars, e);
      } else {
        MergeHolds(s.vars, e, FileEffects(names, conv, g));
      }
    }
  }

  lemma LoadFileSees(s: Store, conv: Conversion, f: File, force: bool)
    ensures LoadFile(s, conv, f, force).seen == s.seen[f.path := f.mtime]
  {
  }

  lemma NothingHolds(vars: Variables)
    ensures Holds(vars, map[])
  {
  }

  lemma MergeHoldsItself(vars: Variables, e: Variables)
    ensures Holds(vars + e, e)
  {
  }

  /** An incremental pass and a forced pass over the same files end with the same variables. */
  lemma {:induction false} PassesAgree(s: Store, u: set<File>, conv: Conversion, files: seq<File>, force: bool)
    requires Harmless(u, s.vars.Keys, conv) && UpToDate(s, u, s.vars.Keys, conv)
    requires forall f :: f in files ==> f in u
    ensures LoadFiles(s, conv, files, force).vars == LoadFiles(s, conv, files, true).vars
    ensures UpToDate(LoadFiles(s, conv, files, force), u, s.vars.Keys, conv)
    ensures UpToDate(LoadFiles(s, conv, files, true), u, s.vars.Keys, conv)
  {
    hide LoadFile, Harmless, FileEffects, UpToDate;
    if files != [] {
      var front, f := files[..|files| - 1], files[|files| - 1];
      PassesAgree(s, u, conv, front, force);
      var a, b := LoadFiles(s, conv, front, force), LoadFiles(s, conv, front, true);
      KeepsNames(a, u, s.vars.Keys, conv);
      FileIsAsLoaded(a, u, conv, f, force);
      FileIsAsLoaded(b, u, conv, f, true);
    }
  }

  lemma KeepsNames(s: Store, u: set<File>, names: set<string>, conv: Conversion)
    requires UpToDate(s, u, names, conv)
    ensures s.vars.Keys == names
  {
  }

  ghost predicate Among(calls: seq<Call>, u: set<File>) {
    forall i, f :: 0 <= i < |calls| && f in calls[i].files ==> f in u
  }

  lemma {:induction false} CallsKeepUpToDate(vars: Variables, u: set<File>, conv: Conversion, calls: seq<Call>)
    requires Harmless(u, vars.Keys, conv) && Among(calls, u)
    ensures UpToDate(AfterCalls(Store(vars, map[]), conv, calls), u, vars.Keys, conv)
  {
    hide LoadFiles, Harmless, FileEffects;
    if calls != [] {
      var front := calls[..|calls| - 1];
      CallsKeepUpToDate(vars, u, conv, front);
      var last := calls[|calls| - 1];
      PassesAgree(AfterCalls(Store(vars, map[]), conv, front), u, conv, last.files, last.force);
    }
  }

  /** After these calls, an incremental pass over the files ends with the same variables as a forced one. */
  ghost predicate PassAgrees(vars: Variables, conv: Conversion, calls: seq<Call>, files: seq<File>) {
    var s := AfterCalls(Store(vars, map[]), conv, calls);
    LoadFiles(s, conv, files, false).vars == LoadFiles(s, conv, files, true).vars
  }

  /** Incremental loading equals full reloading after every run over these versions, from any starting values. */
  ghost predicate AlwaysAgrees(u: set<File>, names: set<string>, conv: Conversion) {
    forall vars: Variables, calls, files ::
      vars.Keys == names && Among(calls, u) && (forall f :: f in files ==> f in u) ==>
        PassAgrees(vars, conv, calls, files)
  }

  /** Values that differ from everything a version sets. */
  function Unlike(names: set<string>, e: Variables): Variables {
    map x | x in names :: if x in e then e[x] + "'" else ""
  }

  lemma StaleFileDiffers(s: Store, conv: Conversion, f: File, x: string)
    requires Skips(s, f, false) && x in s.vars && x in FileEffects(s.vars.Keys, conv, f)
    requires s.vars[x] != FileEffects(s.vars.Keys, conv, f)[x]
    ensures LoadFiles(s, conv, [f], false).vars != LoadFiles(s, conv, [f], true).vars
  {
    hide LoadFile, FileEffects;
    LoadOne(s, conv, f, false);
    LoadOne(s, conv, f, true);
    LoadFileMerges(s, conv, f, false);
    LoadFileMerges(s, conv, f, true);
  }

  lemma LoadOne(s: Store, conv: Conversion, f: File, force: bool)
    ensures LoadFiles(s, conv, [f], force) == LoadFile(s, conv, f, force)
  {
    assert [f][..0] == [];
    assert LoadFiles(s, conv, [f][..0], force) == s;
  }

  lemma LoadTwo(s: Store, conv: Conversion, f: File, g: File, force: bool)
    ensures LoadFiles(s, conv, [f, g], force) == LoadFile(LoadFile(s, conv, f, force), conv, g, force)
  {
    hide LoadFile;
    assert [f, g][..1] == [f];
    LoadOne(s, conv, f, force);
  }

  lemma OneCall(s: Store, conv: Conversion, call: Call)
    ensures AfterCalls(s, conv, [call]) == LoadFiles(s, conv, call.files, call.force)
  {
    hide LoadFiles;
    assert [call][..0] == [];
    assert AfterCalls(s, conv, [call][..0]) == s;
  }

  lemma ZeroTimeDiffers(names: set<string>, conv: Conversion, f: File)
    requires f.mtime == 0 && FileEffects(names, conv, f) != map[]
    ensures exists vars: Variables :: vars.Keys == names && !PassAgrees(vars, conv, [], [f])
  {
    hide LoadFile, LoadFiles, FileEffects;
    var e := FileEffects(names, conv, f);
    var vars := Unlike(names, e);
    LoadFileMerges(Store(vars, map[]), conv, f, true);
    assert vars.Keys == names;
    var x :| x in e;
    StaleFileDiffers(Store(vars, map[]), conv, f, x);
    assert AfterCalls(Store(vars, map[]), conv, []) == Store(vars, map[]);
    assert !PassAgrees(vars, conv, [], [f]);
  }

  lemma SameTimeDiffers(names: set<string>, conv: Conversion, f: File, g: File, x: string)
    requires f.path == g.path && f.mtime == g.mtime
    requires var e, d := FileEffects(names, conv, f), FileEffects(names, conv, g); x in e && (x !in d || d[x] != e[x])
    ensures exists vars: Variables :: vars.Keys == names && !PassAgrees(vars, conv, [Call([g], true)], [f])
  {
    hide LoadFile, LoadFiles, FileEffects;
    var e := FileEffects(names, conv, f);
    var vars := Unlike(names, e);
    var s := Store(vars, map[]);
    assert vars.Keys == names;
    LoadFileMerges(s, conv, f, true);
    LoadFileMerges(s, conv, g, true);
    LoadFileSees(s, conv, g, true);
    LoadOne(s, conv, g, true);
    OneCall(s, conv, Call([g], true));
    StaleFileDiffers(LoadFile(s, conv, g, true), conv, f, x);
    assert !PassAgrees(vars, conv, [Call([g], true)], [f]);
  }

  lemma TwoPathsDiffer(names: set<string>, conv: Conversion, f: File, g: File, x: string)
    requires f.path != g.path
    requires var e, d := FileEffects(names, conv, f), FileEffects(names, conv, g); x in e && x in d && d[x] != e[x]
    ensures exists vars: Variables :: vars.Keys == names && !PassAgrees(vars, conv, [Call([f, g], true)], [f])
  {
    hide LoadFile, LoadFiles, FileEffects;
    var vars := Unlike(names, map[]);
    var s := Store(vars, map[]);
    assert vars.Keys == names;
    var s1 := LoadFile(s, conv, f, true);
    LoadFileMerges(s, conv, f, true);
    LoadFileSees(s, conv, f, true);
    LoadFileMerges(s1, conv, g, true);
    LoadFileSees(s1, conv, g, true);
    LoadTwo(s, conv, f, g, true);
    OneCall(s, conv, Call([f, g], true));
    StaleFileDiffers(LoadFile(s1, conv, g, true), conv, f, x);
    assert !PassAgrees(vars, conv, [Call([f, g], true)], [f]);
  }

  /**
   * Skipping unchanged files is as good as reloading everything, after every run of calls over these versions and
   * from any starting values, if and only if the versions are harmless.
   */
  lemma IncrementalIsFullReload(u: set<File>, names: set<string>, conv: Conversion)
    ensures AlwaysAgrees(u, names, conv) <==> Harmless(u, names, conv)
  {
    hide PassAgrees, FileEffects;
    if Harmless(u, names, conv) {
      forall vars: Variables, calls, files |
        vars.Keys == names && Among(calls, u) && (forall f :: f in files ==> f in u)
        ensures PassAgrees(vars, conv, calls, files)
      {
        HarmlessAgrees(vars, u, conv, calls, files);
      }
    } else {
      HarmfulDiffers(u, names, conv);
    }
  }

  lemma HarmlessAgrees(vars: Variables, u: set<File>, conv: Conversion, calls: seq<Call>, files: seq<File>)
    requires Harmless(u, vars.Keys, conv) && Among(calls, u) && (forall f :: f in files ==> f in u)
    ensures PassAgrees(vars, conv, calls, files)
  {
    hide Harmless, LoadFiles, AfterCalls, UpToDate;
    var s := AfterCalls(Store(vars, map[]), conv, calls);
    CallsKeepUpToDate(vars, u, conv, calls);
    KeepsNames(s, u, vars.Keys, conv);
    PassesAgree(s, u, conv, files, false);
  }

  lemma DifferenceRefutes(u: set<File>, names: set<string>, conv: Conversion, calls: seq<Call>, files: seq<File>)
    requires Among(calls, u) && (forall f :: f in files ==> f in u)
    requires exists vars: Variables :: vars.Keys == names && !PassAgrees(vars, conv, calls, files)
    ensures !AlwaysAgrees(u, names, conv)
  {
    hide PassAgrees;
  }

  lemma HarmfulDiffers(u: set<File>, names: set<string>, conv: Conversion)
    requires !Harmless(u, names, conv)
    ensures !AlwaysAgrees(u, names, conv)
  {
    hide PassAgrees, FileEffects, AlwaysAgrees;
    if f :| f in u && f.mtime == 0 && FileEffects(names, conv, f) != map[] {
      ZeroTimeDiffers(names, conv, f);
      DifferenceRefutes(u, names, conv, [], [f]);
    } else if f, g :| f in u && g in u && f.path != g.path &&
                      !AgreeOn(FileEffects(names, conv, f), FileEffects(names, conv, g)) {
      var x :| x in FileEffects(names, conv, f) && x in FileEffects(names, conv, g) &&
               FileEffects(names, conv, f)[x] != FileEffects(names, conv, g)[x];
      TwoPathsDiffer(names, conv, f, g, x);
      DifferenceRefutes(u, names, conv, [Call([f, g], true)], [f]);
    } else {
      var f, g :| f in u && g in u && f.path == g.path && f.mtime == g.mtime &&
                  FileEffects(names, conv, f) != FileEffects(names, conv, g);
      var e, d := FileEffects(names, conv, f), FileEffects(names, conv, g);
      if x :| x in e && (x !in d || d[x] != e[x]) {
        SameTimeDiffers(names, conv, f, g, x);
        DifferenceRefutes(u, names, conv, [Call([g], true)], [f]);
      } else {
        assert exists x :: x in d && x !in e;
        var x :| x in d && x !in e;
        SameTimeDiffers(names, conv, g, f, x);
        DifferenceRefutes(u, names, conv, [Call([f], true)], [g]);
      }
    }
  }

  /** What the condition asks of ordinary use: a new content gets a new, non-zero time, and no variable two owners. */
  lemma OwnedVariablesAreHarmless(u: set<File>, names: set<string>, conv: Conversion)
    requires forall f, g :: f in u && g in u && f.path == g.path && f.mtime == g.mtime ==> f.root == g.root
    requires forall f :: f in u ==> f.mtime != 0
    requires forall f, g :: f in u && g in u && f.path != g.path ==>
      FileEffects(names, conv, f).Keys !! FileEffects(names, conv, g).Keys
    ensures AlwaysAgrees(u, names, conv)
  {
    hide Effects, AlwaysAgrees;
    IncrementalIsFullReload(u, names, conv);
  }

  /** Editing the first of two files that set one variable: the edit wins over the second file, until a full reload. */
  lemma EditedFileWins(s: Store, conv: Conversion, edited: File, other: File, x: string)
    requires edited.path != other.path && !Skips(s, edited, false) && Skips(s, other, false)
    requires x in FileEffects(s.vars.Keys, conv, edited) && x in FileEffects(s.vars.Keys, conv, other)
    ensures var skipping := LoadFiles(s, conv, [edited, other], false).vars;
            var full := LoadFiles(s, conv, [edited, other], true).vars;
            && x in skipping && skipping[x] == FileEffects(s.vars.Keys, conv, edited)[x]
            && x in full && full[x] == FileEffects(s.vars.Keys, conv, other)[x]
  {
    hide LoadFile, LoadFiles, FileEffects;
    LoadTwo(s, conv, edited, other, false);
    LoadTwo(s, conv, edited, other, true);
    LoadFileMerges(s, conv, edited, false);
    LoadFileMerges(s, conv, edited, true);
    LoadFileSees(s, conv, edited, false);
    LoadFileMerges(LoadFile(s, conv, edited, false), conv, other, false);
    LoadFileMerges(LoadFile(s, conv, edited, true), conv, other, true);
  }
}
