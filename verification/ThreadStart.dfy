/** The start of a thread object: its constructor and the new thread's `run`, interleaved step by step. */
module ThreadStarts {
  import opened Bytes

  type Callback = nat

  const UNKNOWN := "UNKNOW"

  /** The thread object. `alive` ends with its destructor, or when its constructor throws. */
  datatype Object = Object(
    alive: bool, cb: Option<Callback>, name: string, id: Option<nat>, permits: nat, joinable: bool)

  datatype Creator = Making | Spawning | Keeping | Acquiring | Returned | Joined | Threw | Destroyed

  datatype Runner = Absent | Entering | Naming | Identifying | Swapping | Releasing | Calling | Inside | Finished

  /**
   * The two threads and what the new one keeps for itself: the current-thread pointer and name, and the swapped-out
   * callback. `starts` counts callback starts, `released` records the semaphore release, `touches` counts the
   * accesses of `run` to the object, and `stray` those to an object that is no longer alive.
   */
  datatype World = World(
    obj: Object,
    creator: Creator,
    runner: Runner,
    current: bool,
    currentName: string,
    held: Option<Callback>,
    starts: nat,
    released: bool,
    touches: nat,
    stray: nat)

  /** A step of either thread; `spawns` says whether the system starts the new thread. */
  datatype Action = Create(spawns: bool) | Join | Destroy | Execute

  function NameOf(name: string): string {
    if name == "" then UNKNOWN else name
  }

  function Start(): World {
    World(Object(false, None, "", None, 0, false), Making, Absent, false, UNKNOWN, None, 0, false, 0, 0)
  }

  /** One step of the constructor. */
  function CreatorStep(w: World, cb: Callback, name: string, spawns: bool): World {
    match w.creator
    case Making => w.(obj := Object(true, Some(cb), NameOf(name), None, 0, false), creator := Spawning)
    case Spawning =>
      if spawns then w.(creator := Keeping, runner := Entering)
      else w.(obj := w.obj.(alive := false), creator := Threw)
    case Keeping => w.(obj := w.obj.(joinable := true), creator := Acquiring)
    case Acquiring =>
      if w.obj.permits == 0 then w
      else w.(obj := w.obj.(permits := w.obj.permits - 1), creator := Returned)
    case _ => w
  }

  /** An access to the object by the new thread. */
  function Touch(w: World): World {
    w.(touches := w.touches + 1, stray := if w.obj.alive then w.stray else w.stray + 1)
  }

  /** One step of `run`; `self` is the new thread's own id. */
  function RunnerStep(w: World, self: nat): World {
    match w.runner
    case Entering => w.(current := true, runner := Naming)
    case Naming => Touch(w).(currentName := w.obj.name, runner := Identifying)
    case Identifying => Touch(w).(obj := w.obj.(id := Some(self)), runner := Swapping)
    case Swapping => Touch(w).(held := w.obj.cb, obj := w.obj.(cb := w.held), runner := Releasing)
    case Releasing => Touch(w).(obj := w.obj.(permits := w.obj.permits + 1), released := true, runner := Calling)
    case Calling => w.(starts := w.starts + 1, runner := Inside)
    case Inside => w.(runner := Finished)
    case _ => w
  }

  function Apply(w: World, cb: Callback, name: string, self: nat, act: Action): World {
    match act
    case Create(spawns) => CreatorStep(w, cb, name, spawns)
    case Join =>
      if w.creator == Returned && w.runner == Finished
      then w.(obj := w.obj.(joinable := false), creator := Joined) else w
    case Destroy =>
      if w.creator == Returned || w.creator == Joined
      then w.(obj := w.obj.(alive := false, joinable := false), creator := Destroyed) else w
    case Execute => RunnerStep(w, self)
  }

  function Run(cb: Callback, name: string, self: nat, acts: seq<Action>): World {
    if acts == [] then Start()
    else Apply(Run(cb, name, self, acts[..|acts| - 1]), cb, name, self, acts[|acts| - 1])
  }

  // ---------------------------------------------------------------- invariant

  predicate AfterRelease(r: Runner) {
    r.Calling? || r.Inside? || r.Finished?
  }

  /** The constructor is between spawning the thread and returning. */
  predicate Waiting(c: Creator) {
    c.Keeping? || c.Acquiring?
  }

  predicate Out(c: Creator) {
    c.Returned? || c.Joined? || c.Destroyed?
  }

  /** How often `run` accesses the object on its way to each point; after the release, never again. */
  function TouchesBefore(r: Runner): nat {
    match r
    case Absent => 0
    case Entering => 0
    case Naming => 0
    case Identifying => 1
    case Swapping => 2
    case Releasing => 3
    case _ => 4
  }

  ghost predicate Inv(w: World, cb: Callback, name: string, self: nat) {
    && w.stray == 0
    && w.touches == TouchesBefore(w.runner)
    && (w.runner == Absent <==> w.creator.Making? || w.creator.Spawning? || w.creator.Threw?)
    && (Waiting(w.creator) || w.creator.Spawning? || w.creator.Returned? || w.creator.Joined? <==> w.obj.alive)
    && (Out(w.creator) ==> AfterRelease(w.runner) && w.obj.permits == 0)
    && (Waiting(w.creator) ==> w.obj.permits == if AfterRelease(w.runner) then 1 else 0)
    && (w.creator.Making? || w.creator.Spawning? || w.creator.Threw? ==> w.obj.permits == 0)
    && (w.released <==> AfterRelease(w.runner))
    && (w.starts == if w.runner.Inside? || w.runner.Finished? then 1 else 0)
    && (w.runner.Absent? || w.runner.Entering? || w.runner.Naming? || w.runner.Identifying? || w.runner.Swapping? ==>
          w.held == None && (w.obj.alive ==> w.obj.cb == Some(cb)))
    && (w.runner.Releasing? || AfterRelease(w.runner) ==> w.held == Some(cb) && w.obj.cb == None)
    && (w.runner.Swapping? || w.runner.Releasing? || AfterRelease(w.runner) ==> w.obj.id == Some(self))
    && (w.obj.alive ==> w.obj.name == NameOf(name))
    && (!w.runner.Absent? && !w.runner.Entering? <==> w.current)
    && (w.creator.Joined? ==> w.runner.Finished?)
    && (w.obj.joinable <==> w.creator.Acquiring? || w.creator.Returned?)
    && (!w.runner.Absent? && !w.runner.Entering? && !w.runner.Naming? ==> w.currentName == NameOf(name))
  }

  lemma InvStep(w: World, cb: Callback, name: string, self: nat, act: Action)
    requires Inv(w, cb, name, self)
    ensures Inv(Apply(w, cb, name, self, act), cb, name, self)
  {
  }

  lemma {:induction false} EveryRunKeepsInv(cb: Callback, name: string, self: nat, acts: seq<Action>)
    ensures Inv(Run(cb, name, self, acts), cb, name, self)
  {
    hide Inv, Apply;
    if acts == [] {
      StartInv(cb, name, self);
    } else {
      EveryRunKeepsInv(cb, name, self, acts[..|acts| - 1]);
      InvStep(Run(cb, name, self, acts[..|acts| - 1]), cb, name, self, acts[|acts| - 1]);
    }
  }

  lemma StartInv(cb: Callback, name: string, self: nat)
    ensures Inv(Start(), cb, name, self)
  {
  }

  /**
   * When the constructor has returned, the id is set, the object's callback is empty and only `run` holds it; the
   * object has its name and the new thread knows it.
   */
  lemma ReturnedIsPublished(cb: Callback, name: string, self: nat, acts: seq<Action>)
    requires Out(Run(cb, name, self, acts).creator)
    ensures var w := Run(cb, name, self, acts);
            && w.obj.id == Some(self) && w.obj.cb == None && w.held == Some(cb)
            && w.released && w.current && w.currentName == (if name == "" then "UNKNOW" else name)
            && (w.obj.alive ==> w.obj.name == w.currentName)
            && (w.creator.Returned? ==> w.obj.alive && w.obj.joinable)
  {
    hide Run;
    EveryRunKeepsInv(cb, name, self, acts);
  }

  /** The callback starts at most once, never before the release, and `run` never touches an object that is gone. */
  lemma CallbackRunsOnceAfterRelease(cb: Callback, name: string, self: nat, acts: seq<Action>)
    ensures var w := Run(cb, name, self, acts);
            && w.starts <= 1 && (w.starts == 1 ==> w.released && w.held == Some(cb))
            && (w.runner.Finished? ==> w.starts == 1)
            && w.stray == 0
            && w.obj.permits <= 1
  {
    hide Run;
    EveryRunKeepsInv(cb, name, self, acts);
  }

  /** The constructor throws exactly when the thread was not spawned, and then the callback never starts. */
  lemma ThrowingStartsNothing(cb: Callback, name: string, self: nat, acts: seq<Action>)
    ensures var w := Run(cb, name, self, acts);
            (w.creator == Threw ==> w.runner == Absent && w.starts == 0 && !w.released && !w.obj.alive) &&
            (w.runner == Absent && !Constructing(w.creator) ==> w.creator == Threw)
  {
    hide Run;
    EveryRunKeepsInv(cb, name, self, acts);
  }

  lemma PrefixStep(cb: Callback, name: string, self: nat, acts: seq<Action>, k: nat)
    requires k < |acts|
    ensures Run(cb, name, self, acts[..k + 1]) == Apply(Run(cb, name, self, acts[..k]), cb, name, self, acts[k])
  {
    assert acts[..k + 1][..k] == acts[..k];
  }

  lemma ReleaseIsForGood(w: World, cb: Callback, name: string, self: nat, act: Action)
    requires Inv(w, cb, name, self)
    ensures w.released ==> Apply(w, cb, name, self, act).released
    ensures w.runner.Finished? ==> Apply(w, cb, name, self, act).runner.Finished?
    ensures w.creator.Destroyed? ==> Apply(w, cb, name, self, act).creator.Destroyed?
    ensures Apply(w, cb, name, self, act).creator.Destroyed? ==>
      w.creator.Destroyed? || (act.Destroy? && (w.creator.Returned? || w.creator.Joined?))
    ensures act.Destroy? && (w.creator.Returned? || w.creator.Joined?) ==>
      Apply(w, cb, name, self, act).creator.Destroyed? && Apply(w, cb, name, self, act).runner == w.runner
  {
  }

  lemma {:induction false} StaysReleased(cb: Callback, name: string, self: nat, acts: seq<Action>, k: nat)
    requires k <= |acts|
    ensures Run(cb, name, self, acts[..k]).released ==> Run(cb, name, self, acts).released
    ensures Run(cb, name, self, acts[..k]).runner.Finished? ==> Run(cb, name, self, acts).runner.Finished?
    decreases |acts| - k
  {
    hide Run, Inv, Apply;
    if k == |acts| {
      assert acts[..k] == acts;
    } else {
      EveryRunKeepsInv(cb, name, self, acts[..k]);
      PrefixStep(cb, name, self, acts, k);
      ReleaseIsForGood(Run(cb, name, self, acts[..k]), cb, name, self, acts[k]);
      StaysReleased(cb, name, self, acts, k + 1);
    }
  }

  /** Once `run` has released the semaphore it never accesses the object again, in any run, alive or not. */
  lemma NothingTouchedAfterRelease(cb: Callback, name: string, self: nat, acts: seq<Action>, k: nat)
    requires k <= |acts| && Run(cb, name, self, acts[..k]).released
    ensures Run(cb, name, self, acts).touches == Run(cb, name, self, acts[..k]).touches
    ensures Run(cb, name, self, acts).stray == 0
  {
    hide Run;
    StaysReleased(cb, name, self, acts, k);
    EveryRunKeepsInv(cb, name, self, acts[..k]);
    EveryRunKeepsInv(cb, name, self, acts);
  }

  // ------------------------------------------------ the current-thread pointer

  /** The new thread still runs and its current-thread pointer points to an object that is gone. */
  predicate Dangles(w: World) {
    w.current && !w.obj.alive && !w.runner.Finished?
  }

  /** Action `k` destroys the object while `run` has not finished. */
  predicate DestroyedEarly(cb: Callback, name: string, self: nat, acts: seq<Action>, k: nat)
    requires k < |acts|
  {
    var w := Run(cb, name, self, acts[..k]);
    acts[k].Destroy? && (w.creator.Returned? || w.creator.Joined?) && !w.runner.Finished?
  }

  lemma DanglesWhenDestroyed(w: World, cb: Callback, name: string, self: nat)
    requires Inv(w, cb, name, self)
    ensures Dangles(w) <==> w.creator.Destroyed? && !w.runner.Finished?
    ensures w.creator.Joined? ==> w.runner.Finished?
  {
  }

  /** A destruction stays visible: a destroyed object was destroyed by some action of the run. */
  lemma {:induction false} DestroyedBySome(cb: Callback, name: string, self: nat, acts: seq<Action>)
    requires Run(cb, name, self, acts).creator.Destroyed? && !Run(cb, name, self, acts).runner.Finished?
    ensures exists k :: 0 <= k < |acts| && DestroyedEarly(cb, name, self, acts, k)
  {
    hide Run, Inv, Apply;
    if acts == [] {
      StartRun(cb, name, self);
    } else {
      var n := |acts| - 1;
      var front := acts[..n];
      EveryRunKeepsInv(cb, name, self, front);
      PrefixStep(cb, name, self, acts, n);
      assert acts[..n + 1] == acts;
      ReleaseIsForGood(Run(cb, name, self, front), cb, name, self, acts[n]);
      if Run(cb, name, self, front).creator.Destroyed? {
        DestroyedBySome(cb, name, self, front);
        var k :| 0 <= k < n && DestroyedEarly(cb, name, self, front, k);
        assert front[..k] == acts[..k];
        assert DestroyedEarly(cb, name, self, acts, k);
      } else {
        assert DestroyedEarly(cb, name, self, acts, n);
      }
    }
  }

  /**
   * The rule for the owner: the current-thread pointer dangles in no state of a run if and only if no action destroys
   * the object before `run` has finished.
   */
  lemma DanglingIffDestroyedEarly(cb: Callback, name: string, self: nat, acts: seq<Action>)
    ensures (forall k :: 0 <= k <= |acts| ==> !Dangles(Run(cb, name, self, acts[..k]))) <==>
            (forall k :: 0 <= k < |acts| ==> !DestroyedEarly(cb, name, self, acts, k))
  {
    hide Run, Inv, Apply, Dangles;
    forall k | 0 <= k < |acts| && DestroyedEarly(cb, name, self, acts, k)
      ensures Dangles(Run(cb, name, self, acts[..k + 1]))
    {
      EveryRunKeepsInv(cb, name, self, acts[..k]);
      EveryRunKeepsInv(cb, name, self, acts[..k + 1]);
      PrefixStep(cb, name, self, acts, k);
      ReleaseIsForGood(Run(cb, name, self, acts[..k]), cb, name, self, acts[k]);
      DanglesWhenDestroyed(Run(cb, name, self, acts[..k + 1]), cb, name, self);
    }
    forall k | 0 <= k <= |acts| && Dangles(Run(cb, name, self, acts[..k]))
      ensures exists j :: 0 <= j < |acts| && DestroyedEarly(cb, name, self, acts, j)
    {
      EveryRunKeepsInv(cb, name, self, acts[..k]);
      DanglesWhenDestroyed(Run(cb, name, self, acts[..k]), cb, name, self);
      DestroyedBySome(cb, name, self, acts[..k]);
      var j :| 0 <= j < k && DestroyedEarly(cb, name, self, acts[..k], j);
      assert acts[..k][..j] == acts[..j];
      assert DestroyedEarly(cb, name, self, acts, j);
    }
  }

  /** An owner that joins first is always safe: destroying a joined thread's object is never early. */
  lemma JoinedIsSafe(cb: Callback, name: string, self: nat, acts: seq<Action>, k: nat)
    requires k < |acts| && Run(cb, name, self, acts[..k]).creator.Joined?
    ensures !DestroyedEarly(cb, name, self, acts, k)
  {
    hide Run, Inv;
    EveryRunKeepsInv(cb, name, self, acts[..k]);
    DanglesWhenDestroyed(Run(cb, name, self, acts[..k]), cb, name, self);
  }

  // ---------------------------------------------------------------- progress

  /** Steps that finish any started construction whose thread can be spawned. */
  function Finish(): seq<Action> {
    [Create(true), Create(true), Create(true)] + seq(5, _ => Execute) + [Create(true)]
  }

  function Continue(w: World, cb: Callback, name: string, self: nat, acts: seq<Action>): World
    decreases acts
  {
    if acts == [] then w else Continue(Apply(w, cb, name, self, acts[0]), cb, name, self, acts[1..])
  }

  lemma {:induction false} RunContinues(cb: Callback, name: string, self: nat, acts: seq<Action>, more: seq<Action>)
    ensures Run(cb, name, self, acts + more) == Continue(Run(cb, name, self, acts), cb, name, self, more)
    decreases more
  {
    hide Apply;
    if more == [] {
      assert acts + more == acts;
    } else {
      var next := acts + [more[0]];
      assert next[..|next| - 1] == acts;
      assert acts + more == next + more[1..];
      RunContinues(cb, name, self, next, more[1..]);
    }
  }

  predicate Constructing(c: Creator) {
    c.Making? || c.Spawning? || Waiting(c)
  }

  lemma AbsentUntilSpawned(w: World, cb: Callback, name: string, self: nat)
    requires Inv(w, cb, name, self) && Constructing(w.creator)
    ensures w.runner == Absent <==> w.creator.Making? || w.creator.Spawning?
  {
  }

  lemma CreatorReachesAcquire(w: World, cb: Callback, name: string, self: nat)
    requires Inv(w, cb, name, self) && Constructing(w.creator)
    ensures var c := Create(true);
            var w' := Apply(Apply(Apply(w, cb, name, self, c), cb, name, self, c), cb, name, self, c);
            && Inv(w', cb, name, self) && (w'.creator.Acquiring? || w'.creator.Returned?)
            && w'.runner == (if w.runner == Absent then Entering else w.runner)
  {
    hide Inv;
    var c := Create(true);
    AbsentUntilSpawned(w, cb, name, self);
    InvStep(w, cb, name, self, c);
    var w1 := Apply(w, cb, name, self, c);
    InvStep(w1, cb, name, self, c);
    InvStep(Apply(w1, cb, name, self, c), cb, name, self, c);
  }

  /** How far `run` is from its release. */
  function Distance(r: Runner): nat {
    match r
    case Entering => 5
    case Naming => 4
    case Identifying => 3
    case Swapping => 2
    case Releasing => 1
    case _ => 0
  }

  lemma RunnerAdvances(w: World, cb: Callback, name: string, self: nat)
    requires Inv(w, cb, name, self)
    ensures var w' := Apply(w, cb, name, self, Execute);
            && Inv(w', cb, name, self) && w'.creator == w.creator
            && Distance(w'.runner) == (if Distance(w.runner) == 0 then 0 else Distance(w.runner) - 1)
            && (Distance(w.runner) == 1 ==> w'.runner == Calling)
  {
    InvStep(w, cb, name, self, Execute);
    hide Inv;
  }

  lemma {:induction false} RunnerReleases(w: World, cb: Callback, name: string, self: nat, n: nat)
    requires Inv(w, cb, name, self) && Distance(w.runner) <= n
    ensures var w' := Continue(w, cb, name, self, seq(n, _ => Execute));
            && Inv(w', cb, name, self) && w'.creator == w.creator && Distance(w'.runner) == 0
            && (0 < n == Distance(w.runner) ==> w'.runner == Calling)
    decreases n
  {
    hide Inv, Apply, Distance;
    if n != 0 {
      RunnerAdvances(w, cb, name, self);
      assert seq(n, _ => Execute)[1..] == seq(n - 1, _ => Execute);
      RunnerReleases(Apply(w, cb, name, self, Execute), cb, name, self, n - 1);
    }
  }

  lemma {:induction false} ContinueJoin(w: World, cb: Callback, name: string, self: nat, a: seq<Action>, b: seq<Action>)
    ensures Continue(w, cb, name, self, a + b) == Continue(Continue(w, cb, name, self, a), cb, name, self, b)
    decreases a
  {
    hide Apply;
    if a == [] {
      assert a + b == b;
    } else {
      assert (a + b)[1..] == a[1..] + b;
      ContinueJoin(Apply(w, cb, name, self, a[0]), cb, name, self, a[1..], b);
    }
  }

  lemma AcquireReturns(w: World, cb: Callback, name: string, self: nat)
    requires Inv(w, cb, name, self) && (w.creator.Acquiring? || w.creator.Returned?) && Distance(w.runner) == 0
    ensures Apply(w, cb, name, self, Create(true)).creator == Returned
    ensures Apply(w, cb, name, self, Create(true)).runner == w.runner
  {
  }

  lemma ContinueOne(w: World, cb: Callback, name: string, self: nat, act: Action)
    ensures Continue(w, cb, name, self, [act]) == Apply(w, cb, name, self, act)
  {
  }

  lemma ContinueThree(w: World, cb: Callback, name: string, self: nat, a: Action)
    ensures Continue(w, cb, name, self, [a, a, a]) ==
            Apply(Apply(Apply(w, cb, name, self, a), cb, name, self, a), cb, name, self, a)
  {
    hide Apply;
    assert [a, a, a][1..] == [a, a] && [a, a][1..] == [a];
    ContinueOne(Apply(Apply(w, cb, name, self, a), cb, name, self, a), cb, name, self, a);
  }

  /** The handshake never deadlocks: from every state of a started construction the constructor can still return. */
  lemma ConstructorCanReturn(cb: Callback, name: string, self: nat, acts: seq<Action>)
    requires Constructing(Run(cb, name, self, acts).creator)
    ensures Run(cb, name, self, acts + Finish()).creator == Returned
    ensures Run(cb, name, self, acts).runner == Absent ==> Run(cb, name, self, acts + Finish()).runner == Calling
  {
    hide Run, Inv, Apply, Distance, Constructing;
    var w := Run(cb, name, self, acts);
    EveryRunKeepsInv(cb, name, self, acts);
    RunContinues(cb, name, self, acts, Finish());
    var c, five := Create(true), seq(5, _ => Execute);
    ContinueJoin(w, cb, name, self, [c, c, c] + five, [c]);
    ContinueJoin(w, cb, name, self, [c, c, c], five);
    ContinueThree(w, cb, name, self, c);
    CreatorReachesAcquire(w, cb, name, self);
    var w1 := Continue(w, cb, name, self, [c, c, c]);
    DistanceBound(w1.runner);
    RunnerReleases(w1, cb, name, self, 5);
    var w2 := Continue(w1, cb, name, self, five);
    AcquireReturns(w2, cb, name, self);
    ContinueOne(w2, cb, name, self, c);
  }

  lemma DistanceBound(r: Runner)
    ensures Distance(r) <= 5 && Distance(Entering) == 5
  {
  }

  /** The object may be gone while the callback runs, and the thread's current-thread pointer still points to it. */
  lemma CallbackMayOutliveObject(cb: Callback, name: string, self: nat)
    ensures var w := Run(cb, name, self, Finish() + [Destroy, Execute]);
            w.runner == Inside && Dangles(w) && w.stray == 0
  {
    hide Run, Inv;
    StartRun(cb, name, self);
    assert [] + Finish() == Finish();
    ConstructorCanReturn(cb, name, self, []);
    EveryRunKeepsInv(cb, name, self, Finish());
    ReturnedIsPublished(cb, name, self, Finish());
    CallbackRunsOnceAfterRelease(cb, name, self, Finish());
    RunContinues(cb, name, self, Finish(), [Destroy, Execute]);
    assert [Destroy, Execute][1..] == [Execute];
  }

  lemma StartRun(cb: Callback, name: string, self: nat)
    ensures Run(cb, name, self, []) == Start()
  {
  }
}
