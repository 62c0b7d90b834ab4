/** `crash.rs`, panic containment across threads: every interleaving of threads that enter `contain`
    scopes, panic, run the panic hook, unwind, and come back with a value or an error. One event is one
    step of one thread. */
module PanicRuns {
  import opened Options
  import PanicScopes

  /** What `catch_unwind` gave. */
  datatype Caught = Value | Failed(message: string)

  /** How far a call of `contain` has come: running its closure, caught, guard dropped, panic counted. */
  datatype Stage = Running | Caught(r: Caught) | Dropped(r: Caught) | Counted(message: string)

  datatype Frame = Frame(what: string, stage: Stage)

  /** Whether the thread runs ordinary code, the panic hook, or is unwinding. */
  datatype Mode = Normal | InHook(message: string) | Unwinding(message: string)

  /** A thread: its thread-local depth and its calls of `contain`, innermost last. */
  datatype Thread = Thread(depth: nat, frames: seq<Frame>, mode: Mode)

  /** What a call of `contain` returned. */
  datatype Answer = Answer(thread: nat, what: string, r: Caught)

  datatype State = State(
    threads: seq<Thread>, contained: nat, answers: seq<Answer>, ended: Option<PanicScopes.PostAction>)

  datatype Action =
    | Enter(what: string)      // `contain` raises the depth and starts the closure
    | Panic(message: string)   // a panic starts; the hook is called
    | Hook                     // the hook looks at the depth: it returns, or ends the process
    | Catch                    // the unwind reaches `catch_unwind`
    | Finish                   // the closure returns
    | Leave                    // the guard is dropped
    | Count                    // the panic is counted
    | Return                   // `contain` returns

  datatype Event = Event(thread: nat, action: Action)

  const IDLE := Thread(0, [], Normal)

  function Start(n: nat): State {
    State(seq(n, _ => IDLE), 0, [], None)
  }

  // ---------------------------------------------------------------- one step

  function Top(t: Thread): Frame
    requires t.frames != []
  {
    t.frames[|t.frames| - 1]
  }

  function WithTop(t: Thread, stage: Stage): Thread
    requires t.frames != []
  {
    t.(frames := t.frames[|t.frames| - 1 := Top(t).(stage := stage)])
  }

  /** The thread runs code of its own: the closure of its innermost scope, or code outside all scopes. */
  predicate InCode(t: Thread) {
    t.frames == [] || Top(t).stage.Running?
  }

  predicate CanDo(t: Thread, a: Action) {
    match a
    case Enter(_) => t.mode.Normal? && InCode(t)
    case Panic(_) => t.mode.Normal? && InCode(t)
    case Hook => t.mode.InHook?
    case Catch => t.mode.Unwinding? && t.frames != [] && Top(t).stage.Running?
    case Finish => t.mode.Normal? && t.frames != [] && Top(t).stage.Running?
    case Leave => t.frames != [] && Top(t).stage.Caught?
    case Count => t.frames != [] && Top(t).stage.Dropped? && Top(t).stage.r.Failed?
    case Return => t.frames != [] && (Top(t).stage.Counted? || (Top(t).stage.Dropped? && Top(t).stage.r.Value?))
  }

  /** The thread after the action; the guard's decrement stops at zero. */
  function ThreadAfter(t: Thread, a: Action): Thread
    requires CanDo(t, a)
  {
    match a
    case Enter(what) => t.(depth := t.depth + 1, frames := t.frames + [Frame(what, Running)])
    case Panic(message) => t.(mode := InHook(message))
    case Hook => if t.depth > 0 then t.(mode := Unwinding(t.mode.message)) else t
    case Catch => WithTop(t, Stage.Caught(Failed(t.mode.message))).(mode := Normal)
    case Finish => WithTop(t, Stage.Caught(Value))
    case Leave => WithTop(t, Dropped(Top(t).stage.r)).(depth := if t.depth > 0 then t.depth - 1 else 0)
    case Count => WithTop(t, Counted(Top(t).stage.r.message))
    case Return => t.(frames := t.frames[..|t.frames| - 1])
  }

  predicate Enabled(s: State, e: Event) {
    s.ended.None? && e.thread < |s.threads| && CanDo(s.threads[e.thread], e.action)
  }

  function AnswerOf(e: Event, t: Thread): Answer
    requires CanDo(t, e.action) && e.action.Return?
  {
    Answer(e.thread, Top(t).what, if Top(t).stage.Counted? then Failed(Top(t).stage.message) else Value)
  }

  function Step(core: bool, s: State, e: Event): State
    requires Enabled(s, e)
  {
    var t := s.threads[e.thread];
    State(s.threads[e.thread := ThreadAfter(t, e.action)],
          s.contained + (if e.action.Count? then 1 else 0),
          s.answers + (if e.action.Return? then [AnswerOf(e, t)] else []),
          if e.action.Hook? && t.depth == 0 then Some(PanicScopes.PostReportAction(core)) else None)
  }

  // ---------------------------------------------------------------- runs

  /** The state after a run of `n` threads. */
  function After(core: bool, n: nat, run: seq<Event>): State
    requires IsRun(core, n, run)
    decreases |run|, 1
  {
    if run == [] then Start(n)
    else
      var before := run[..|run| - 1];
      Step(core, After(core, n, before), run[|run| - 1])
  }

  /** Each event of the run was possible when it happened. */
  predicate IsRun(core: bool, n: nat, run: seq<Event>)
    decreases |run|, 0
  {
    run == [] ||
    (IsRun(core, n, run[..|run| - 1]) && Enabled(After(core, n, run[..|run| - 1]), run[|run| - 1]))
  }

  lemma {:induction false} PrefixIsRun(core: bool, n: nat, run: seq<Event>, k: nat)
    requires IsRun(core, n, run) && k <= |run|
    ensures IsRun(core, n, run[..k])
  {
    if k == |run| {
      assert run[..k] == run;
    } else {
      var before := run[..|run| - 1];
      PrefixIsRun(core, n, before, k);
      assert before[..k] == run[..k];
    }
  }

  /** The state after the first `k` events. */
  function At(core: bool, n: nat, run: seq<Event>, k: nat): State
    requires IsRun(core, n, run) && k <= |run|
  {
    PrefixIsRun(core, n, run, k);
    After(core, n, run[..k])
  }

  lemma AtStep(core: bool, n: nat, run: seq<Event>, k: nat)
    requires IsRun(core, n, run) && k < |run|
    ensures Enabled(At(core, n, run, k), run[k])
    ensures At(core, n, run, k + 1) == Step(core, At(core, n, run, k), run[k])
  {
    hide Enabled, Step;
    PrefixIsRun(core, n, run, k + 1);
    assert run[..k + 1][..k] == run[..k];
  }

  // ---------------------------------------------------------------- the invariant

  /** How many scopes of the thread are open: entered, and their guard not yet dropped. */
  function Open(t: Thread): nat {
    if t.frames != [] && (Top(t).stage.Dropped? || Top(t).stage.Counted?) then |t.frames| - 1 else |t.frames|
  }

  /** Only the innermost call is anywhere but in its closure; a thread that panics is in code of its
      own; it only unwinds inside a scope; and its depth is the number of its open scopes. */
  ghost predicate Sound(t: Thread) {
    && (forall k :: 0 <= k < |t.frames| - 1 ==> t.frames[k].stage.Running?)
    && (!t.mode.Normal? ==> InCode(t))
    && (t.mode.Unwinding? ==> t.frames != [])
    && t.depth == Open(t)
  }

  lemma StepSound(t: Thread, a: Action)
    requires Sound(t) && CanDo(t, a)
    ensures Sound(ThreadAfter(t, a))
  {
  }

  lemma {:induction false} AlwaysSound(core: bool, n: nat, run: seq<Event>, t: nat)
    requires IsRun(core, n, run) && t < n
    ensures |After(core, n, run).threads| == n && Sound(After(core, n, run).threads[t])
  {
    hide Sound, ThreadAfter, CanDo;
    if run == [] {
      IdleSound();
    } else {
      var before := run[..|run| - 1];
      AlwaysSound(core, n, before, t);
      var s, e := After(core, n, before), run[|run| - 1];
      if e.thread == t {
        StepSound(s.threads[t], e.action);
      }
    }
  }

  lemma IdleSound()
    ensures Sound(IDLE)
  {
  }
}
