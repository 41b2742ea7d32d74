/** The thread object: what its constructor and `run` do to its fields, tied to the steps of the handshake. */
module Threads {
  import opened Bytes
  import opened ThreadStarts

  /** What a thread keeps for itself. */
  class ThreadLocals {
    var current: Thread?
    var currentName: string

    constructor ()
      ensures current == null && currentName == UNKNOWN
    {
      current, currentName := null, UNKNOWN;
    }

    /** Renames the thread, and its object when it has one; the empty name is ignored. */
    method SetName(name: string)
      modifies this`currentName, current
      ensures name == "" ==> unchanged(this) && (current != null ==> unchanged(current))
      ensures name != "" ==> currentName == name && (current != null ==> current.name == name)
      ensures current != null ==> current.State() == old(current.State()).(name := current.name)
    {
      if name == "" {
        return;
      }
      if current != null {
        current.name := name;
      }
      currentName := name;
    }
  }

  class Thread {
    var cb: Option<Callback>
    var name: string
    var id: Option<nat>
    var permits: nat
    var joinable: bool

    ghost function State(): Object
      reads this
    {
      Object(true, cb, name, id, permits, joinable)
    }

    /** The constructor up to the point where it spawns the thread. */
    constructor (cb: Callback, name: string)
      ensures State() == Apply(Start(), cb, name, 0, Create(true)).obj
      ensures this.cb == Some(cb) && this.name == (if name == "" then "UNKNOW" else name) && id == None
    {
      this.cb, this.name, id, permits, joinable := Some(cb), name, None, 0, false;
      if name == "" {
        this.name := UNKNOWN;
      }
    }

    /** Stores the spawned thread's handle. */
    method Keep(ghost w: World)
      requires w.obj == State() && w.creator == Keeping
      modifies `joinable
      ensures joinable
      ensures forall cb, name, self, spawns :: State() == Apply(w, cb, name, self, Create(spawns)).obj
    {
      joinable := true;
    }

    /** Takes a permit of the semaphore; the caller waits until there is one. */
    method Acquire(ghost w: World)
      requires w.obj == State() && w.creator == Acquiring && permits > 0
      modifies `permits
      ensures forall cb, name, self, spawns ::
        var w' := Apply(w, cb, name, self, Create(spawns)); State() == w'.obj && w'.creator == Returned
    {
      permits := permits - 1;
    }
  }

  /** The first five steps of `run`. */
  function Prologue(w: World, self: nat): World {
    RunnerStep(RunnerStep(RunnerStep(RunnerStep(RunnerStep(w, self), self), self), self), self)
  }

  /** `run` up to the point where it calls the callback it has taken over. */
  method Run(thread: Thread, self: nat, locals: ThreadLocals, ghost w: World) returns (cb: Option<Callback>)
    requires w.obj == thread.State() && w.runner == Entering && w.held == None
    modifies thread, locals
    ensures var w' := Prologue(w, self);
            && thread.State() == w'.obj && cb == w'.held && w'.runner == Calling && w'.stray == w.stray
            && locals.current == thread && locals.currentName == w'.currentName
    ensures thread.id == Some(self) && thread.cb == None && cb == old(thread.cb)
    ensures thread.permits == old(thread.permits) + 1
    ensures thread.name == old(thread.name) && locals.currentName == old(thread.name)
  {
    locals.current := thread;
    locals.currentName := thread.name;
    thread.id := Some(self);
    cb := None;
    cb, thread.cb := thread.cb, cb;
    thread.permits := thread.permits + 1;
  }

  /** In the machine too, those five steps take `run` from its entry to the call, whoever created the thread. */
  lemma PrologueIsRun(w: World, cb: Callback, name: string, self: nat)
    requires Inv(w, cb, name, self) && w.runner == Entering
    ensures Continue(w, cb, name, self, seq(5, _ => Execute)) == Prologue(w, self)
    ensures Prologue(w, self).released && Prologue(w, self).held == Some(cb)
  {
    hide RunnerStep, Continue, Distance;
    assert seq(5, _ => Execute) == [Execute, Execute, Execute, Execute, Execute];
    FiveSteps(w, cb, name, self);
    DistanceBound(w.runner);
    RunnerReleases(w, cb, name, self, 5);
  }

  lemma FiveSteps(w: World, cb: Callback, name: string, self: nat)
    ensures Continue(w, cb, name, self, [Execute, Execute, Execute, Execute, Execute]) == Prologue(w, self)
  {
    hide RunnerStep, Continue;
    var e := Execute;
    assert [e, e, e, e, e] == [e, e, e] + [e, e] && [e, e] == [e] + [e];
    ContinueJoin(w, cb, name, self, [e, e, e], [e, e]);
    ContinueThree(w, cb, name, self, e);
    var w3 := Continue(w, cb, name, self, [e, e, e]);
    ContinueJoin(w3, cb, name, self, [e], [e]);
    ContinueOne(w3, cb, name, self, e);
    ContinueOne(Apply(w3, cb, name, self, e), cb, name, self, e);
  }
}
