/**
 * Many threads calling the module manager. Each critical section is one atomic step, and so is each unload
 * callback, which starts with the lock released; between two steps of a thread the others may run.
 */
module ModuleThreads {
  import opened Bytes
  import opened Registries
  import opened ModuleManagers

  datatype Operation = Add(m: Module) | Del(name: string) | DelAll

  /** Where a thread stands; `left` are the ids of a snapshot still to delete, `mark` is when it was taken. */
  datatype Point =
    | Idle
    | AddStart(m: Module)
    | AddUnload(m: Module, gone: Module)
    | AddInsert(m: Module)
    | DelStart(name: string)
    | DelUnload(gone: Module)
    | AllStart
    | AllNext(left: set<string>, mark: nat)
    | AllUnload(left: set<string>, mark: nat, gone: Module)

  datatype Effect = Quiet | Removes(name: string) | Unloading(gone: Module) | Inserts(m: Module)

  /** The registry, the threads, and a history: what was inserted, overwritten, removed and unloaded, and when. */
  datatype World = World(
    reg: Registry,
    points: seq<Point>,
    inserted: multiset<Module>,
    overwritten: multiset<Module>,
    removed: multiset<Module>,
    unloaded: multiset<Module>,
    stamps: map<string, nat>,
    clock: nat)

  /** A thread calls an operation, or takes its next step; `pick` is the id `delAll` turns to next. */
  datatype Action = Call(thread: nat, op: Operation) | Step(thread: nat, pick: string)

  // ------------------------------------------------------------------ steps

  function Begin(op: Operation): Point {
    match op
    case Add(m) => AddStart(m)
    case Del(name) => DelStart(name)
    case DelAll => AllStart
  }

  function EffectOf(p: Point, pick: string): Effect {
    match p
    case AddStart(m) => Removes(m.id)
    case DelStart(name) => Removes(name)
    case AllNext(left, mark) => if pick in left then Removes(pick) else Quiet
    case AddUnload(m, gone) => Unloading(gone)
    case DelUnload(gone) => Unloading(gone)
    case AllUnload(left, mark, gone) => Unloading(gone)
    case AddInsert(m) => Inserts(m)
    case _ => Quiet
  }

  /** Where a thread stands after its step; `gone` is what the step removed, `ids` what was registered before it. */
  function Next(p: Point, pick: string, gone: Option<Module>, ids: set<string>, now: nat): Point {
    match p
    case Idle => Idle
    case AddStart(m) => if gone.Some? then AddUnload(m, gone.value) else AddInsert(m)
    case AddUnload(m, _) => AddInsert(m)
    case AddInsert(m) => Idle
    case DelStart(name) => if gone.Some? then DelUnload(gone.value) else Idle
    case DelUnload(_) => Idle
    case AllStart => AllNext(ids, now)
    case AllNext(left, mark) =>
      if left == {} then Idle
      else if pick !in left then p
      else if gone.Some? then AllUnload(left - {pick}, mark, gone.value)
      else AllNext(left - {pick}, mark)
    case AllUnload(left, mark, _) => AllNext(left, mark)
  }

  function One(gone: Option<Module>): multiset<Module> {
    if gone.Some? then multiset{gone.value} else multiset{}
  }

  function Removed(reg: Registry, e: Effect): Option<Module> {
    if e.Removes? then DelSection(reg, e.name).1 else None
  }

  function Registration(modules: Index, id: string): Option<Module> {
    if id in modules then Some(modules[id]) else None
  }

  /** What one step does to the registry and the history. */
  function Perform(w: World, e: Effect): World {
    match e
    case Quiet => w
    case Removes(name) =>
      w.(reg := DelSection(w.reg, name).0, removed := w.removed + One(DelSection(w.reg, name).1),
         stamps := w.stamps - {name})
    case Unloading(gone) => w.(unloaded := w.unloaded + multiset{gone})
    case Inserts(m) =>
      w.(reg := InsertSection(w.reg, m), inserted := w.inserted + multiset{m},
         overwritten := w.overwritten + One(Registration(w.reg.modules, m.id)),
         stamps := w.stamps[m.id := w.clock])
  }

  /** One action; an action that its thread is not ready for changes nothing but the clock. */
  function Apply(w: World, a: Action): World {
    if a.thread >= |w.points| then w.(clock := w.clock + 1)
    else
      var p := w.points[a.thread];
      match a
      case Call(t, op) => w.(points := w.points[t := if p.Idle? then Begin(op) else p], clock := w.clock + 1)
      case Step(t, pick) =>
        var e := EffectOf(p, pick);
        var next := Next(p, pick, Removed(w.reg, e), w.reg.modules.Keys, w.clock);
        Perform(w, e).(points := w.points[t := next], clock := w.clock + 1)
  }

  function Start(threads: nat): World {
    World(EMPTY, seq(threads, _ => Idle), multiset{}, multiset{}, multiset{}, multiset{}, map[], 0)
  }

  function Run(threads: nat, acts: seq<Action>): World {
    if acts == [] then Start(threads)
    else Apply(Run(threads, acts[..|acts| - 1]), acts[|acts| - 1])
  }

  // ---------------------------------------------- what every interleaving keeps

  function Held(p: Point): multiset<Module> {
    match p
    case AddUnload(_, gone) => multiset{gone}
    case DelUnload(gone) => multiset{gone}
    case AllUnload(_, _, gone) => multiset{gone}
    case _ => multiset{}
  }

  /** The modules that were removed but whose callback has not been fired yet. */
  function Pending(points: seq<Point>): multiset<Module> {
    if points == [] then multiset{} else Held(points[0]) + Pending(points[1..])
  }

  lemma {:induction false} PendingUpdate(points: seq<Point>, t: nat, p: Point)
    requires t < |points|
    ensures Pending(points[t := p]) + Held(points[t]) == Pending(points) + Held(p)
  {
    hide Held;
    var next := points[t := p];
    if t == 0 {
      assert next[1..] == points[1..];
    } else {
      PendingUpdate(points[1..], t - 1, p);
      assert next[1..] == points[1..][t - 1 := p];
      Shuffle(Held(points[0]), Pending(next[1..]), Held(points[t]), Pending(points[1..]), Held(p));
    }
  }

  lemma Shuffle(h: multiset<Module>, a: multiset<Module>, x: multiset<Module>, b: multiset<Module>, y: multiset<Module>)
    requires a + x == b + y
    ensures (h + a) + x == (h + b) + y
  {
    assert (h + a) + x == h + (a + x);
  }

  ghost predicate Conserved(w: World) {
    && w.inserted == Registered(w.reg) + w.removed + w.overwritten
    && w.removed == w.unloaded + Pending(w.points)
  }

  lemma {:induction false} EveryRunIsFiled(threads: nat, acts: seq<Action>)
    ensures Filed(Run(threads, acts).reg)
  {
    hide Filed, DelSection, InsertSection, Next;
    if acts == [] {
      EmptyAgrees();
    } else {
      EveryRunIsFiled(threads, acts[..|acts| - 1]);
      var w := Run(threads, acts[..|acts| - 1]);
      FiledStep(w, acts[|acts| - 1]);
    }
  }

  lemma FiledStep(w: World, a: Action)
    requires Filed(w.reg)
    ensures Filed(Apply(w, a).reg)
  {
    hide Filed, DelSection, InsertSection, Next;
    if a.Step? && a.thread < |w.points| {
      var e := EffectOf(w.points[a.thread], a.pick);
      if e.Removes? {
        DelKeepsFiled(w.reg, e.name);
      } else if e.Inserts? {
        InsertKeepsFiled(w.reg, e.m);
      }
    }
  }

  /** A step holds exactly what it just removed ... */
  lemma HeldAfter(p: Point, pick: string, gone: Option<Module>, ids: set<string>, now: nat)
    requires gone.Some? ==> EffectOf(p, pick).Removes?
    ensures Held(Next(p, pick, gone, ids, now)) == One(gone)
  {
  }

  /** ... and lets go of exactly what it just unloaded. */
  lemma HeldBefore(p: Point, pick: string)
    ensures Held(p) == if EffectOf(p, pick).Unloading? then multiset{EffectOf(p, pick).gone} else multiset{}
  {
  }

  lemma Put(inserted: multiset<Module>, before: multiset<Module>, removed: multiset<Module>,
            overwritten: multiset<Module>, m: multiset<Module>, after: multiset<Module>, lost: multiset<Module>)
    requires inserted == before + removed + overwritten && before + m == after + lost
    ensures inserted + m == after + removed + (overwritten + lost)
  {
    forall v
      ensures (inserted + m)[v] == (after + removed + (overwritten + lost))[v]
    {
      assert (before + m)[v] == (after + lost)[v];
    }
  }

  lemma Drop(inserted: multiset<Module>, before: multiset<Module>, removed: multiset<Module>,
             overwritten: multiset<Module>, after: multiset<Module>, gone: multiset<Module>)
    requires inserted == before + removed + overwritten && before == after + gone
    ensures inserted == after + (removed + gone) + overwritten
  {
  }

  lemma Regroup(a: multiset<Module>, b: multiset<Module>, c: multiset<Module>)
    ensures (a + b) + c == a + (b + c) == (a + c) + b
  {
  }

  lemma PerformConserves(w: World, e: Effect, pending: multiset<Module>, held: multiset<Module>)
    requires Filed(w.reg)
    requires w.inserted == Registered(w.reg) + w.removed + w.overwritten
    requires w.removed == w.unloaded + pending
    requires held == if e.Unloading? then multiset{e.gone} else multiset{}
    ensures var w' := Perform(w, e);
            && w'.inserted == Registered(w'.reg) + w'.removed + w'.overwritten
            && w'.removed + held == w'.unloaded + (pending + One(Removed(w.reg, e)))
  {
    hide Filed, DelSection, InsertSection, Registered;
    match e
    case Quiet =>
      assert pending + One(None) == pending && w.removed + held == w.removed;
    case Removes(name) =>
      DelMovesOne(w.reg, name);
      var (reg', gone) := DelSection(w.reg, name);
      Drop(w.inserted, Registered(w.reg), w.removed, w.overwritten, Registered(reg'), One(gone));
      Regroup(w.unloaded, pending, One(gone));
    case Unloading(gone) =>
      Regroup(w.unloaded, pending, held);
      Regroup(w.unloaded, held, pending);
      assert pending + One(None) == pending;
    case Inserts(m) =>
      InsertMovesOne(w.reg, m);
      assert pending + One(None) == pending && w.removed + held == w.removed;
      var lost := One(Registration(w.reg.modules, m.id));
      Put(w.inserted, Registered(w.reg), w.removed, w.overwritten, multiset{m},
          Registered(InsertSection(w.reg, m)), lost);
  }

  lemma Settle(removed: multiset<Module>, held: multiset<Module>, unloaded: multiset<Module>,
               pending: multiset<Module>, gone: multiset<Module>, pending': multiset<Module>)
    requires removed + held == unloaded + (pending + gone)
    requires pending' + held == pending + gone
    ensures removed == unloaded + pending'
  {
    assert forall m :: (removed + held)[m] == (unloaded + (pending' + held))[m];
    forall m
      ensures removed[m] == (unloaded + pending')[m]
    {
      assert (removed + held)[m] == removed[m] + held[m];
    }
  }

  lemma ConservedStep(w: World, a: Action)
    requires Filed(w.reg) && Conserved(w)
    ensures Conserved(Apply(w, a))
  {
    hide Filed, Perform, EffectOf, Next, Registered, Pending, Held;
    if a.thread < |w.points| {
      var p := w.points[a.thread];
      match a
      case Call(t, op) =>
        HeldByCall(p, op);
        var next := if p.Idle? then Begin(op) else p;
        PendingUpdate(w.points, t, next);
        Settle(w.removed, Held(p), w.unloaded, Pending(w.points), Held(next), Pending(w.points[t := next]));
      case Step(t, pick) =>
        var e := EffectOf(p, pick);
        var gone := Removed(w.reg, e);
        var next := Next(p, pick, gone, w.reg.modules.Keys, w.clock);
        HeldBefore(p, pick);
        HeldAfter(p, pick, gone, w.reg.modules.Keys, w.clock);
        PendingUpdate(w.points, t, next);
        PerformConserves(w, e, Pending(w.points), Held(p));
        var w' := Perform(w, e);
        Settle(w'.removed, Held(p), w'.unloaded, Pending(w.points), One(gone), Pending(w.points[t := next]));
    }
  }

  lemma HeldByCall(p: Point, op: Operation)
    ensures p.Idle? ==> Held(Begin(op)) == Held(p)
  {
  }

  lemma {:induction false} NothingPending(points: seq<Point>)
    requires forall i :: 0 <= i < |points| ==> points[i].Idle?
    ensures Pending(points) == multiset{}
  {
    if points != [] {
      NothingPending(points[1..]);
    }
  }

  /** In every run, whatever was inserted is registered, overwritten, or removed; a removed module is unloaded once. */
  lemma {:induction false} EveryRunConserves(threads: nat, acts: seq<Action>)
    ensures Conserved(Run(threads, acts))
    ensures var w := Run(threads, acts);
            (forall i :: 0 <= i < |w.points| ==> w.points[i].Idle?) ==>
              w.removed == w.unloaded && w.inserted == Registered(w.reg) + w.unloaded + w.overwritten
  {
    hide Filed, Apply, Registered, Pending;
    var w := Run(threads, acts);
    if acts == [] {
      EmptyAgrees();
      NothingPending(w.points);
    } else {
      EveryRunIsFiled(threads, acts[..|acts| - 1]);
      EveryRunConserves(threads, acts[..|acts| - 1]);
      ConservedStep(Run(threads, acts[..|acts| - 1]), acts[|acts| - 1]);
    }
    if forall i :: 0 <= i < |w.points| ==> w.points[i].Idle? {
      NothingPending(w.points);
    }
  }

  // ------------------------------------------------------ what delAll leaves

  predicate InDelAll(p: Point) {
    p.AllNext? || p.AllUnload?
  }

  /** While `delAll` sweeps, a registered id is still to be deleted or was inserted after the snapshot. */
  ghost predicate Sweeping(w: World) {
    && w.stamps.Keys == w.reg.modules.Keys
    && (forall id :: id in w.stamps ==> w.stamps[id] < w.clock)
    && (forall t :: 0 <= t < |w.points| && InDelAll(w.points[t]) ==>
          w.points[t].mark < w.clock && LeftOrLater(w.stamps, w.points[t].left, w.points[t].mark))
  }

  ghost predicate LeftOrLater(stamps: map<string, nat>, left: set<string>, mark: nat) {
    forall id :: id in stamps ==> id in left || mark < stamps[id]
  }

  lemma PerformStamps(w: World, e: Effect)
    requires w.stamps.Keys == w.reg.modules.Keys
    ensures var w' := Perform(w, e);
            && w'.stamps.Keys == w'.reg.modules.Keys
            && Restamped(w.stamps, w'.stamps, w.clock)
            && (e.Removes? ==> e.name !in w'.stamps)
            && (e.Quiet? ==> w' == w)
  {
    hide DelSection, InsertSection;
    match e
    case Quiet =>
    case Removes(name) =>
      DelNames(w.reg, name);
    case Unloading(gone) =>
    case Inserts(m) =>
      InsertNames(w.reg, m);
  }

  /** What a step may do to the stamps, whichever thread takes it. */
  ghost predicate Restamped(stamps: map<string, nat>, stamps': map<string, nat>, now: nat) {
    forall id :: id in stamps' ==> (id in stamps && stamps'[id] == stamps[id]) || stamps'[id] == now
  }

  lemma OtherSweeps(stamps: map<string, nat>, stamps': map<string, nat>, now: nat, left: set<string>, mark: nat)
    requires LeftOrLater(stamps, left, mark) && mark < now && Restamped(stamps, stamps', now)
    ensures LeftOrLater(stamps', left, mark)
  {
  }

  lemma OwnSweep(w: World, t: nat, pick: string)
    requires Sweeping(w) && t < |w.points|
    ensures var w' := Apply(w, Step(t, pick));
            InDelAll(w'.points[t]) ==>
              w'.points[t].mark < w'.clock && LeftOrLater(w'.stamps, w'.points[t].left, w'.points[t].mark)
  {
    hide Perform, Removed, DelSection, Bucket;
    PerformStamps(w, EffectOf(w.points[t], pick));
  }

  lemma SweepingStep(w: World, a: Action)
    requires Sweeping(w)
    ensures Sweeping(Apply(w, a))
  {
    hide Perform, Removed, InsertSection, DelSection, LeftOrLater, Next;
    if a.thread < |w.points| && a.Step? {
      var p := w.points[a.thread];
      PerformStamps(w, EffectOf(p, a.pick));
      OwnSweep(w, a.thread, a.pick);
      var w' := Apply(w, a);
      forall t | 0 <= t < |w'.points| && InDelAll(w'.points[t])
        ensures w'.points[t].mark < w'.clock && LeftOrLater(w'.stamps, w'.points[t].left, w'.points[t].mark)
      {
        if t != a.thread {
          OtherSweeps(w.stamps, w'.stamps, w.clock, w.points[t].left, w.points[t].mark);
        }
      }
    } else {
      assert forall t :: 0 <= t < |w.points| && InDelAll(Apply(w, a).points[t]) ==>
        Apply(w, a).points[t] == w.points[t];
    }
  }

  lemma {:induction false} EveryRunSweeps(threads: nat, acts: seq<Action>)
    ensures Sweeping(Run(threads, acts)) && Run(threads, acts).clock == |acts|
    ensures |Run(threads, acts).points| == threads
  {
    hide Sweeping, Perform, Next, EffectOf;
    if acts == [] {
      NothingSweeps(threads);
    } else {
      EveryRunSweeps(threads, acts[..|acts| - 1]);
      SweepingStep(Run(threads, acts[..|acts| - 1]), acts[|acts| - 1]);
    }
  }

  lemma NothingSweeps(threads: nat)
    ensures Sweeping(Start(threads))
  {
  }

  /** Action `k` of the run is the insert section of an `add` of `m`. */
  ghost predicate InsertedAt(threads: nat, acts: seq<Action>, k: int, m: Module) {
    && 0 <= k < |acts| && acts[k].Step?
    && var w := Run(threads, acts[..k]);
       acts[k].thread < |w.points| && w.points[acts[k].thread] == AddInsert(m)
  }

  /** Action `k` of the run is the snapshot of thread `t`'s `delAll`. */
  ghost predicate SnapshotAt(threads: nat, acts: seq<Action>, k: int, t: nat) {
    && 0 <= k < |acts| && acts[k].Step? && acts[k].thread == t
    && var w := Run(threads, acts[..k]);
       t < |w.points| && w.points[t] == AllStart
  }

  /** The stamps and marks are true: each names the action that inserted the module or took the snapshot. */
  ghost predicate History(threads: nat, acts: seq<Action>) {
    var w := Run(threads, acts);
    && (forall id :: id in w.stamps && id in w.reg.modules ==>
          InsertedAt(threads, acts, w.stamps[id], w.reg.modules[id]))
    && (forall t :: 0 <= t < |w.points| && InDelAll(w.points[t]) ==>
          SnapshotAt(threads, acts, w.points[t].mark, t))
  }

  lemma PerformWho(w: World, e: Effect)
    requires w.stamps.Keys == w.reg.modules.Keys
    ensures var w' := Perform(w, e);
            forall id :: id in w'.stamps && id in w'.reg.modules ==>
              || (id in w.stamps && w'.stamps[id] == w.stamps[id] && w'.reg.modules[id] == w.reg.modules[id])
              || (e.Inserts? && w'.stamps[id] == w.clock && w'.reg.modules[id] == e.m)
  {
    hide Bucket;
  }

  lemma Earlier(threads: nat, acts: seq<Action>, a: Action)
    ensures forall k, m :: InsertedAt(threads, acts, k, m) ==> InsertedAt(threads, acts + [a], k, m)
    ensures forall k, t: nat :: SnapshotAt(threads, acts, k, t) ==> SnapshotAt(threads, acts + [a], k, t)
  {
    hide Run;
    assert forall k :: 0 <= k < |acts| ==> (acts + [a])[..k] == acts[..k];
  }

  lemma ThisAction(threads: nat, acts: seq<Action>, a: Action)
    requires a.Step? && a.thread < |Run(threads, acts).points|
    ensures var p := Run(threads, acts).points[a.thread];
            && (p.AddInsert? ==> InsertedAt(threads, acts + [a], |acts|, p.m))
            && (p.AllStart? ==> SnapshotAt(threads, acts + [a], |acts|, a.thread))
  {
    hide Run;
    assert (acts + [a])[..|acts|] == acts;
  }

  lemma HistoryStep(threads: nat, acts: seq<Action>, a: Action)
    requires History(threads, acts) && Sweeping(Run(threads, acts)) && Run(threads, acts).clock == |acts|
    requires Run(threads, acts + [a]) == Apply(Run(threads, acts), a)
    ensures History(threads, acts + [a])
  {
    hide Run, Perform, InsertedAt, SnapshotAt, Removed;
    Earlier(threads, acts, a);
    var w := Run(threads, acts);
    if a.thread < |w.points| && a.Step? {
      var p := w.points[a.thread];
      PerformWho(w, EffectOf(p, a.pick));
      ThisAction(threads, acts, a);
    }
  }

  lemma {:induction false} EveryRunHasItsHistory(threads: nat, acts: seq<Action>)
    ensures History(threads, acts)
  {
    hide History, Sweeping, Apply;
    if acts == [] {
      NoHistory(threads);
    } else {
      var front := acts[..|acts| - 1];
      EveryRunHasItsHistory(threads, front);
      EveryRunSweeps(threads, front);
      assert acts == front + [acts[|acts| - 1]];
      HistoryStep(threads, front, acts[|acts| - 1]);
    }
  }

  lemma NoHistory(threads: nat)
    ensures History(threads, [])
  {
  }

  /** When a `delAll` is about to return, every registered module was inserted after its snapshot was taken. */
  lemma DelAllLeavesOnlyLaterModules(threads: nat, acts: seq<Action>, t: nat)
    requires t < |Run(threads, acts).points|
    requires Run(threads, acts).points[t].AllNext? && Run(threads, acts).points[t].left == {}
    ensures var w := Run(threads, acts);
            var snapshot := w.points[t].mark;
            && SnapshotAt(threads, acts, snapshot, t)
            && (forall id :: id in w.reg.modules ==>
                  exists k :: snapshot < k < |acts| && InsertedAt(threads, acts, k, w.reg.modules[id]))
  {
    hide Run, SnapshotAt, InsertedAt;
    EveryRunSweeps(threads, acts);
    EveryRunHasItsHistory(threads, acts);
    var w := Run(threads, acts);
    forall id | id in w.reg.modules
      ensures exists k :: w.points[t].mark < k < |acts| && InsertedAt(threads, acts, k, w.reg.modules[id])
    {
      assert id in w.stamps;
    }
  }

  // ------------------------------------------- when the indexes always agree

  function Adding(p: Point): Option<string> {
    if p.AddStart? || p.AddUnload? || p.AddInsert? then Some(p.m.id) else None
  }

  /** No two threads are adding modules with the same id. */
  ghost predicate NoOverlap(w: World) {
    forall s, t :: 0 <= s < |w.points| && 0 <= t < |w.points| && s != t && Adding(w.points[s]).Some? ==>
      Adding(w.points[s]) != Adding(w.points[t])
  }

  /** An id that some thread is about to insert is not registered. */
  ghost predicate Vacated(w: World) {
    forall t :: 0 <= t < |w.points| && (w.points[t].AddUnload? || w.points[t].AddInsert?) ==>
      w.points[t].m.id !in w.reg.modules
  }

  lemma PerformAgrees(w: World, e: Effect)
    requires Agree(w.reg)
    requires e.Inserts? && e.m.id in w.reg.modules ==> w.reg.modules[e.m.id].kind == e.m.kind
    ensures Agree(Perform(w, e).reg)
    ensures Perform(w, e).reg.modules ==
            match e
            case Removes(name) => w.reg.modules - {name}
            case Inserts(m) => w.reg.modules[m.id := m]
            case _ => w.reg.modules
    ensures e.Inserts? && e.m.id !in w.reg.modules ==> Perform(w, e).overwritten == w.overwritten
    ensures !e.Inserts? ==> Perform(w, e).overwritten == w.overwritten
  {
    hide Agree, InsertSection, DelSection;
    if e.Removes? {
      DelKeepsAgreement(w.reg, e.name);
      DelNames(w.reg, e.name);
    } else if e.Inserts? {
      InsertKeepsAgreement(w.reg, e.m);
      InsertNames(w.reg, e.m);
    }
  }

  lemma VacatedStep(w: World, a: Action)
    requires Agree(w.reg) && Vacated(w) && NoOverlap(w)
    ensures Agree(Apply(w, a).reg) && Vacated(Apply(w, a))
    ensures Apply(w, a).overwritten == w.overwritten
  {
    hide Agree, Perform, Removed;
    if a.Step? && a.thread < |w.points| {
      PerformAgrees(w, EffectOf(w.points[a.thread], a.pick));
    }
  }

  lemma DelNames(r: Registry, name: string)
    ensures DelSection(r, name).0.modules == r.modules - {name}
  {
  }

  lemma InsertNames(r: Registry, m: Module)
    ensures InsertSection(r, m).modules == r.modules[m.id := m]
  {
  }

  /** While adds of one id never overlap, the indexes agree and nothing inserted is ever overwritten. */
  lemma {:induction false} RunsWithoutOverlapAgree(threads: nat, acts: seq<Action>)
    requires forall k :: 0 <= k < |acts| ==> NoOverlap(Run(threads, acts[..k]))
    ensures Agree(Run(threads, acts).reg) && Run(threads, acts).overwritten == multiset{}
    ensures Run(threads, acts).inserted == Registered(Run(threads, acts).reg) + Run(threads, acts).removed
    ensures Vacated(Run(threads, acts))
  {
    hide Agree, NoOverlap, Apply, Registered, Pending;
    if acts == [] {
      EmptyAgrees();
    } else {
      var front := acts[..|acts| - 1];
      assert forall k :: 0 <= k < |front| ==> front[..k] == acts[..k];
      RunsWithoutOverlapAgree(threads, front);
      VacatedStep(Run(threads, front), acts[|acts| - 1]);
    }
    EveryRunConserves(threads, acts);
  }

  /** Modules that share an id share a type. */
  ghost predicate OneKindPerId(u: set<Module>) {
    forall a, b :: a in u && b in u && a.id == b.id ==> a.kind == b.kind
  }

  ghost predicate AddsOnly(acts: seq<Action>, u: set<Module>) {
    forall i :: 0 <= i < |acts| && acts[i].Call? && acts[i].op.Add? ==> acts[i].op.m in u
  }

  ghost predicate Within(w: World, u: set<Module>) {
    && (forall id :: id in w.reg.modules ==> w.reg.modules[id] in u)
    && (forall t :: 0 <= t < |w.points| && Adding(w.points[t]).Some? ==> w.points[t].m in u)
  }

  lemma WithinStep(w: World, a: Action, u: set<Module>)
    requires Agree(w.reg) && Within(w, u) && OneKindPerId(u)
    requires a.Call? && a.op.Add? ==> a.op.m in u
    ensures Agree(Apply(w, a).reg) && Within(Apply(w, a), u)
  {
    hide Agree, KeyedById, Perform, Removed;
    if a.Step? && a.thread < |w.points| {
      var e := EffectOf(w.points[a.thread], a.pick);
      KindsMatch(w.reg, u, e);
      PerformAgrees(w, e);
    }
  }

  lemma KindsMatch(r: Registry, u: set<Module>, e: Effect)
    requires Agree(r) && OneKindPerId(u) && e.Inserts? ==> e.m in u
    requires forall id :: id in r.modules ==> r.modules[id] in u
    ensures Agree(r) && OneKindPerId(u) && e.Inserts? && e.m.id in r.modules ==> r.modules[e.m.id].kind == e.m.kind
  {
  }

  lemma {:induction false} RunsWithOneKindPerIdAgree(threads: nat, acts: seq<Action>, u: set<Module>)
    requires OneKindPerId(u) && AddsOnly(acts, u)
    ensures Agree(Run(threads, acts).reg) && Within(Run(threads, acts), u)
  {
    hide Agree, OneKindPerId, Within, Apply;
    if acts == [] {
      EmptyAgrees();
      NothingOutside(threads, u);
    } else {
      RunsWithOneKindPerIdAgree(threads, acts[..|acts| - 1], u);
      WithinStep(Run(threads, acts[..|acts| - 1]), acts[|acts| - 1], u);
    }
  }

  lemma NothingOutside(threads: nat, u: set<Module>)
    ensures Within(Start(threads), u)
  {
  }

  /** Two threads add two modules with one id: both delete first, then both insert. */
  function Overlapping(a: Module, b: Module): seq<Action> {
    [Call(0, Add(a)), Call(1, Add(b)), Step(0, ""), Step(1, ""), Step(0, ""), Step(1, "")]
  }

  lemma RunOneMore(threads: nat, acts: seq<Action>, k: nat)
    requires k < |acts|
    ensures Run(threads, acts[..k + 1]) == Apply(Run(threads, acts[..k]), acts[k])
  {
    assert acts[..k + 1][..k] == acts[..k];
  }

  /** Overlapping adds of one id with two types leave a module that is no longer registered in the type index. */
  lemma OverlapLeavesStaleEntry(threads: nat, a: Module, b: Module)
    requires threads >= 2 && a.id == b.id && a.kind != b.kind
    ensures var r := Run(threads, Overlapping(a, b)).reg;
            && r.modules == map[a.id := b]
            && Bucket(r, a.kind) == map[a.id := a] && Bucket(r, b.kind) == map[a.id := b]
            && !Agree(r)
  {
    hide Agree, Run;
    var acts := Overlapping(a, b);
    OverlapReachesInserts(threads, a, b);
    RunOneMore(threads, acts, 4);
    RunOneMore(threads, acts, 5);
    assert acts[..6] == acts;
    var one := InsertSection(EMPTY, a);
    assert Run(threads, acts[..5]).reg == one;
    assert one.modules == map[a.id := a] && one.byType == map[a.kind := map[a.id := a]];
    var two := InsertSection(one, b);
    assert two.modules == map[a.id := b];
    assert a.id in Bucket(two, a.kind) && Bucket(two, a.kind)[a.id] != two.modules[a.id];
    StaleDisagrees(two, a.kind, a.id);
  }

  lemma StaleDisagrees(r: Registry, kind: nat, id: string)
    requires id in Bucket(r, kind) && id in r.modules && Bucket(r, kind)[id] != r.modules[id]
    ensures !Agree(r)
  {
  }

  lemma OverlapReachesInserts(threads: nat, a: Module, b: Module)
    requires threads >= 2 && a.id == b.id
    ensures var w := Run(threads, Overlapping(a, b)[..4]);
            w.reg == EMPTY && |w.points| == threads && w.points[0] == AddInsert(a) && w.points[1] == AddInsert(b)
  {
    hide Run, Apply;
    var acts := Overlapping(a, b);
    RunNothing(threads, acts);
    RunOneMore(threads, acts, 0);
    Called(Run(threads, acts[..0]), 0, Add(a));
    RunOneMore(threads, acts, 1);
    Called(Run(threads, acts[..1]), 1, Add(b));
    RunOneMore(threads, acts, 2);
    NothingToDelete(Run(threads, acts[..2]), 0, a);
    RunOneMore(threads, acts, 3);
    NothingToDelete(Run(threads, acts[..3]), 1, b);
  }

  lemma Called(w: World, t: nat, op: Operation)
    requires t < |w.points| && w.points[t].Idle?
    ensures var w' := Apply(w, Call(t, op));
            w'.reg == w.reg && w'.unloaded == w.unloaded && w'.points == w.points[t := Begin(op)]
  {
  }

  lemma NothingToDelete(w: World, t: nat, m: Module)
    requires t < |w.points| && w.points[t] == AddStart(m) && m.id !in w.reg.modules
    ensures var w' := Apply(w, Step(t, "")); w'.reg == w.reg && w'.points == w.points[t := AddInsert(m)]
  {
  }

  lemma RunNothing(threads: nat, acts: seq<Action>)
    ensures Run(threads, acts[..0]) == Start(threads)
  {
  }

  /**
   * With two threads or more, every interleaving keeps the indexes in agreement if and only if the modules that
   * may be added never give one id two types.
   */
  lemma AgreementNeedsOneKindPerId(threads: nat, u: set<Module>)
    requires threads >= 2
    ensures (forall acts :: AddsOnly(acts, u) ==> Agree(Run(threads, acts).reg)) <==> OneKindPerId(u)
  {
    hide Agree, Run;
    if OneKindPerId(u) {
      forall acts | AddsOnly(acts, u)
        ensures Agree(Run(threads, acts).reg)
      {
        RunsWithOneKindPerIdAgree(threads, acts, u);
      }
    } else {
      var a, b :| a in u && b in u && a.id == b.id && a.kind != b.kind;
      OverlapLeavesStaleEntry(threads, a, b);
      assert AddsOnly(Overlapping(a, b), u);
    }
  }

  /** An `add` that no other thread interrupts does what the one-thread manager's `add` does. */
  lemma UninterruptedAdd(w: World, t: nat, m: Module)
    requires t < |w.points| && w.points[t].Idle?
    ensures var deleted := Apply(Apply(w, Call(t, Add(m))), Step(t, ""));
            var unloaded := if deleted.points[t].AddUnload? then Apply(deleted, Step(t, "")) else deleted;
            var added := Apply(unloaded, Step(t, ""));
            && added.reg == AddAlone(w.reg, m).0
            && added.unloaded == w.unloaded + multiset(AddAlone(w.reg, m).1)
            && added.points == w.points
  {
    hide DelSection, InsertSection, Apply;
    Called(w, t, Add(m));
    var called := Apply(w, Call(t, Add(m)));
    AddDeletes(called, t, m);
    var deleted := Apply(called, Step(t, ""));
    var gone := DelSection(w.reg, m.id).1;
    if gone.Some? {
      AddUnloads(deleted, t, m, gone.value);
      assert multiset(Unloads(gone)) == multiset{gone.value};
    }
    var unloaded := if deleted.points[t].AddUnload? then Apply(deleted, Step(t, "")) else deleted;
    AddInserts(unloaded, t, m);
  }

  lemma AddDeletes(w: World, t: nat, m: Module)
    requires t < |w.points| && w.points[t] == AddStart(m)
    ensures var (reg, gone) := DelSection(w.reg, m.id);
            var w' := Apply(w, Step(t, ""));
            && w'.reg == reg && w'.unloaded == w.unloaded
            && w'.points == w.points[t := if gone.Some? then AddUnload(m, gone.value) else AddInsert(m)]
  {
    hide DelSection;
  }

  lemma AddUnloads(w: World, t: nat, m: Module, gone: Module)
    requires t < |w.points| && w.points[t] == AddUnload(m, gone)
    ensures var w' := Apply(w, Step(t, ""));
            w'.reg == w.reg && w'.unloaded == w.unloaded + multiset{gone} && w'.points == w.points[t := AddInsert(m)]
  {
  }

  lemma AddInserts(w: World, t: nat, m: Module)
    requires t < |w.points| && w.points[t] == AddInsert(m)
    ensures var w' := Apply(w, Step(t, ""));
            && w'.reg == InsertSection(w.reg, m) && w'.unloaded == w.unloaded && w'.points == w.points[t := Idle]
  {
    hide InsertSection;
  }

  /** A `del` that no other thread interrupts does what the one-thread manager's `del` does. */
  lemma UninterruptedDel(w: World, t: nat, name: string)
    requires t < |w.points| && w.points[t].Idle?
    ensures var deleted := Apply(Apply(w, Call(t, Del(name))), Step(t, ""));
            var done := if deleted.points[t].DelUnload? then Apply(deleted, Step(t, "")) else deleted;
            && done.reg == DelSection(w.reg, name).0
            && done.unloaded == w.unloaded + multiset(Unloads(DelSection(w.reg, name).1))
            && done.points == w.points
  {
    hide DelSection, Apply;
    Called(w, t, Del(name));
    var called := Apply(w, Call(t, Del(name)));
    DelDeletes(called, t, name);
    var deleted := Apply(called, Step(t, ""));
    var gone := DelSection(w.reg, name).1;
    if gone.Some? {
      DelUnloads(deleted, t, gone.value);
      assert multiset(Unloads(gone)) == multiset{gone.value};
    }
  }

  lemma DelDeletes(w: World, t: nat, name: string)
    requires t < |w.points| && w.points[t] == DelStart(name)
    ensures var (reg, gone) := DelSection(w.reg, name);
            var w' := Apply(w, Step(t, ""));
            && w'.reg == reg && w'.unloaded == w.unloaded
            && w'.points == w.points[t := if gone.Some? then DelUnload(gone.value) else Idle]
  {
    hide DelSection;
  }

  lemma DelUnloads(w: World, t: nat, gone: Module)
    requires t < |w.points| && w.points[t] == DelUnload(gone)
    ensures var w' := Apply(w, Step(t, ""));
            w'.reg == w.reg && w'.unloaded == w.unloaded + multiset{gone} && w'.points == w.points[t := Idle]
  {
  }

  // ----------------------------------------------------- delAll uninterrupted

  /** The steps of one thread's sweep that turns to the ids in this order: each is deleted, and its module unloaded. */
  function Sweep(w: World, t: nat, order: seq<string>): World
    decreases |order|
  {
    if order == [] then w
    else
      var before := Sweep(w, t, order[..|order| - 1]);
      Apply(Apply(before, Step(t, order[|order| - 1])), Step(t, ""))
  }

  /** One round of the sweep, over an id that is registered. */
  lemma SweepRound(w: World, t: nat, left: set<string>, mark: nat, id: string)
    requires t < |w.points| && w.points[t] == AllNext(left, mark) && id in left && id in w.reg.modules
    ensures var w' := Apply(Apply(w, Step(t, id)), Step(t, ""));
            && w'.reg == DelSection(w.reg, id).0
            && w'.unloaded == w.unloaded + multiset{w.reg.modules[id]}
            && w'.points == w.points[t := AllNext(left - {id}, mark)]
  {
    hide Apply, Bucket;
    var gone := w.reg.modules[id];
    SweepDeletes(w, t, left, mark, id);
    SweepUnloads(Apply(w, Step(t, id)), t, left - {id}, mark, gone);
  }

  lemma SweepDeletes(w: World, t: nat, left: set<string>, mark: nat, id: string)
    requires t < |w.points| && w.points[t] == AllNext(left, mark) && id in left && id in w.reg.modules
    ensures var w' := Apply(w, Step(t, id));
            && w'.reg == DelSection(w.reg, id).0 && w'.unloaded == w.unloaded
            && w'.points == w.points[t := AllUnload(left - {id}, mark, w.reg.modules[id])]
  {
    DelGives(w.reg, id);
    hide Bucket;
  }

  lemma DelGives(r: Registry, id: string)
    requires id in r.modules
    ensures DelSection(r, id).1 == Some(r.modules[id])
  {
  }

  lemma SweepUnloads(w: World, t: nat, left: set<string>, mark: nat, gone: Module)
    requires t < |w.points| && w.points[t] == AllUnload(left, mark, gone)
    ensures var w' := Apply(w, Step(t, ""));
            && w'.reg == w.reg && w'.unloaded == w.unloaded + multiset{gone}
            && w'.points == w.points[t := AllNext(left, mark)]
  {
  }

  /** The ids of the order, each once and all registered. */
  ghost predicate Orders(order: seq<string>, ids: set<string>) {
    && (forall i :: 0 <= i < |order| ==> order[i] in ids)
    && (forall i, j :: 0 <= i < j < |order| ==> order[i] != order[j])
  }

  function IdsOf(order: seq<string>): set<string> {
    set i | 0 <= i < |order| :: order[i]
  }

  function ModulesOf(modules: Index, order: seq<string>): multiset<Module>
    requires forall i :: 0 <= i < |order| ==> order[i] in modules
  {
    if order == [] then multiset{}
    else ModulesOf(modules, order[..|order| - 1]) + multiset{modules[order[|order| - 1]]}
  }

  lemma {:induction false} SweepDoes(w: World, t: nat, mark: nat, order: seq<string>)
    requires Filed(w.reg) && t < |w.points| && w.points[t] == AllNext(w.reg.modules.Keys, mark)
    requires Orders(order, w.reg.modules.Keys)
    ensures var w' := Sweep(w, t, order);
            && Filed(w'.reg) && Without(w.reg, IdsOf(order), w'.reg)
            && w'.points == w.points[t := AllNext(w.reg.modules.Keys - IdsOf(order), mark)]
            && w'.unloaded == w.unloaded + ModulesOf(w.reg.modules, order)
    decreases |order|
  {
    hide Filed, Without, Apply, DelSection;
    if order == [] {
      NothingSwept(w, t, mark);
    } else {
      var front, id := order[..|order| - 1], order[|order| - 1];
      SweepDoes(w, t, mark, front);
      var w1 := Sweep(w, t, front);
      assert IdsOf(order) == IdsOf(front) + {id};
      assert id !in IdsOf(front);
      SweptModules(w.reg, IdsOf(front), w1.reg, id);
      SweepRound(w1, t, w.reg.modules.Keys - IdsOf(front), mark, id);
      DelKeepsFiled(w1.reg, id);
      WithoutOneMore(w.reg, IdsOf(front), id, w1.reg);
      assert w.reg.modules.Keys - IdsOf(front) - {id} == w.reg.modules.Keys - IdsOf(order);
    }
  }

  lemma NothingSwept(w: World, t: nat, mark: nat)
    requires t < |w.points| && w.points[t] == AllNext(w.reg.modules.Keys, mark)
    ensures IdsOf([]) == {} && Without(w.reg, {}, w.reg)
    ensures w.points == w.points[t := AllNext(w.reg.modules.Keys - {}, mark)]
  {
    WithoutNone(w.reg);
    assert w.reg.modules.Keys - {} == w.reg.modules.Keys;
  }

  lemma SweptModules(r: Registry, gone: set<string>, r': Registry, id: string)
    requires Without(r, gone, r') && id in r.modules && id !in gone
    ensures id in r'.modules && r'.modules[id] == r.modules[id]
  {
  }

  lemma NoValues(modules: Index, order: seq<string>)
    requires order == []
    ensures IdsOf(order) == {}
  {
  }

  lemma {:induction false} ModulesOfAll(modules: Index, order: seq<string>)
    requires KeyedById(modules) && Orders(order, modules.Keys)
    ensures ModulesOf(modules, order) == multiset(set id | id in IdsOf(order) :: modules[id])
  {
    if order == [] {
      NoValues(modules, order);
    } else {
      var front, id := order[..|order| - 1], order[|order| - 1];
      ModulesOfAll(modules, front);
      assert IdsOf(order) == IdsOf(front) + {id};
      ValuesMore(modules, IdsOf(front), id);
    }
  }

  /**
   * A `delAll` that no other thread interrupts does what the one-thread manager's does, in whatever order it turns to
   * the registered ids: each module is unloaded once, and only stale entries stay.
   */
  lemma UninterruptedDelAll(w: World, t: nat, order: seq<string>)
    requires Filed(w.reg) && t < |w.points| && w.points[t].Idle?
    requires Orders(order, w.reg.modules.Keys) && IdsOf(order) == w.reg.modules.Keys
    ensures var snapshot := Apply(Apply(w, Call(t, DelAll)), Step(t, ""));
            var done := Apply(Sweep(snapshot, t, order), Step(t, ""));
            && Filed(done.reg) && Without(w.reg, w.reg.modules.Keys, done.reg)
            && (Agree(w.reg) ==> done.reg == EMPTY)
            && done.unloaded == w.unloaded + multiset(w.reg.modules.Values)
            && done.points == w.points
  {
    hide Filed, Without, Apply, Agree, ModulesOf;
    Called(w, t, DelAll);
    var called := Apply(w, Call(t, DelAll));
    SnapshotTaken(called, t);
    var snapshot := Apply(called, Step(t, ""));
    SweepDoes(snapshot, t, snapshot.points[t].mark, order);
    var swept := Sweep(snapshot, t, order);
    FiledKeys(w.reg);
    ModulesOfAll(w.reg.modules, order);
    assert (set id | id in w.reg.modules.Keys :: w.reg.modules[id]) == w.reg.modules.Values;
    assert w.reg.modules.Keys - IdsOf(order) == {};
    SweepReturns(swept, t, snapshot.points[t].mark);
    if Agree(w.reg) {
      WithoutAll(w.reg, swept.reg);
    }
  }

  lemma SnapshotTaken(w: World, t: nat)
    requires t < |w.points| && w.points[t] == AllStart
    ensures var w' := Apply(w, Step(t, ""));
            && w'.reg == w.reg && w'.unloaded == w.unloaded
            && w'.points == w.points[t := AllNext(w.reg.modules.Keys, w.clock)]
  {
  }

  lemma SweepReturns(w: World, t: nat, mark: nat)
    requires t < |w.points| && w.points[t] == AllNext({}, mark)
    ensures var w' := Apply(w, Step(t, ""));
            w'.reg == w.reg && w'.unloaded == w.unloaded && w'.points == w.points[t := Idle]
  {
  }
}
