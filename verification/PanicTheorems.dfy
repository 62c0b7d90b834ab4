/** What holds over every run of threads inside and outside `contain` scopes. */
module PanicTheorems {
  import opened Options
  import PanicScopes
  import opened PanicRuns

  // ---------------------------------------------------------------- events counted

  /** How many events of the run are `a`-like, for thread `t`. */
  function Tally(run: seq<Event>, t: nat, a: Action -> bool): nat {
    if run == [] then 0
    else Tally(run[..|run| - 1], t, a) + (if run[|run| - 1].thread == t && a(run[|run| - 1].action) then 1 else 0)
  }

  function Enters(run: seq<Event>, t: nat): nat {
    Tally(run, t, (a: Action) => a.Enter?)
  }

  function Leaves(run: seq<Event>, t: nat): nat {
    Tally(run, t, (a: Action) => a.Leave?)
  }

  function Returns(run: seq<Event>, t: nat): nat {
    Tally(run, t, (a: Action) => a.Return?)
  }

  lemma {:induction false} TallyOfConcat(a: seq<Event>, b: seq<Event>, t: nat, p: Action -> bool)
    ensures Tally(a + b, t, p) == Tally(a, t, p) + Tally(b, t, p)
  {
    if b == [] {
      assert a + b == a;
    } else {
      var n := |b| - 1;
      assert (a + b)[..|a + b| - 1] == a + b[..n];
      TallyOfConcat(a, b[..n], t, p);
    }
  }

  /** The thread-local depth is the scopes entered less the guards dropped, and the calls in progress
      are the scopes entered less the calls returned. */
  lemma {:induction false} DepthCountsEvents(core: bool, n: nat, run: seq<Event>, t: nat)
    requires IsRun(core, n, run) && t < n
    ensures |After(core, n, run).threads| == n
    ensures var th := After(core, n, run).threads[t];
            th.depth == Enters(run, t) - Leaves(run, t) && |th.frames| == Enters(run, t) - Returns(run, t)
  {
    hide Sound;
    AlwaysSound(core, n, run, t);
    if run != [] {
      var before, e := run[..|run| - 1], run[|run| - 1];
      DepthCountsEvents(core, n, before, t);
      AlwaysSound(core, n, before, t);
      if e.thread == t {
        DepthStep(After(core, n, before).threads[t], e.action);
      }
    }
  }

  lemma DepthStep(t: Thread, a: Action)
    requires Sound(t) && CanDo(t, a)
    ensures ThreadAfter(t, a).depth == t.depth + (if a.Enter? then 1 else 0) - (if a.Leave? then 1 else 0)
    ensures |ThreadAfter(t, a).frames| == |t.frames| + (if a.Enter? then 1 else 0) - (if a.Return? then 1 else 0)
  {
  }

  /** The guard's decrement never stops at zero: there is always a level to give back. */
  lemma NeverSaturates(core: bool, n: nat, run: seq<Event>, k: nat)
    requires IsRun(core, n, run) && k < |run| && run[k].action.Leave?
    ensures run[k].thread < |At(core, n, run, k).threads|
    ensures At(core, n, run, k).threads[run[k].thread].depth > 0
  {
    hide After, Step;
    AtStep(core, n, run, k);
    ThreadCount(core, n, run, k);
    PrefixIsRun(core, n, run, k);
    AlwaysSound(core, n, run[..k], run[k].thread);
  }

  lemma {:induction false} RunThreads(core: bool, n: nat, run: seq<Event>)
    requires IsRun(core, n, run)
    ensures |After(core, n, run).threads| == n
  {
    hide ThreadAfter, CanDo;
    if run != [] {
      RunThreads(core, n, run[..|run| - 1]);
    }
  }

  lemma ThreadCount(core: bool, n: nat, run: seq<Event>, k: nat)
    requires IsRun(core, n, run) && k <= |run|
    ensures |At(core, n, run, k).threads| == n
  {
    hide After;
    PrefixIsRun(core, n, run, k);
    RunThreads(core, n, run[..k]);
  }

  /** A scope gives its thread's depth back, whether or not it panicked: from the event that enters it
      to the event that returns from it, that is, with as many calls returned as entered in between,
      and whatever the other threads did meanwhile. */
  lemma ScopeRestoresDepth(core: bool, n: nat, run: seq<Event>, t: nat, i: nat, j: nat)
    requires IsRun(core, n, run) && t < n && i <= j < |run|
    requires run[i] == Event(t, run[i].action) && run[i].action.Enter?
    requires run[j] == Event(t, Return) && Enters(run[i..j + 1], t) == Returns(run[i..j + 1], t)
    ensures |At(core, n, run, i).threads| == n == |At(core, n, run, j + 1).threads|
    ensures At(core, n, run, j + 1).threads[t].depth == At(core, n, run, i).threads[t].depth
  {
    hide After, Step, Tally, Enabled, Sound;
    ThreadCount(core, n, run, i);
    ThreadCount(core, n, run, j + 1);
    FramesBetween(core, n, run, t, i, j + 1);
    EnterInCode(core, n, run, i);
    ReturnToCode(core, n, run, j);
  }

  lemma FramesBetween(core: bool, n: nat, run: seq<Event>, t: nat, i: nat, j: nat)
    requires IsRun(core, n, run) && t < n && i <= j <= |run|
    ensures |At(core, n, run, i).threads| == n == |At(core, n, run, j).threads|
    ensures |At(core, n, run, j).threads[t].frames| ==
            |At(core, n, run, i).threads[t].frames| + Enters(run[i..j], t) - Returns(run[i..j], t)
  {
    hide After, Tally;
    PrefixIsRun(core, n, run, i);
    PrefixIsRun(core, n, run, j);
    DepthCountsEvents(core, n, run[..i], t);
    DepthCountsEvents(core, n, run[..j], t);
    assert run[..j] == run[..i] + run[i..j];
    TallyOfConcat(run[..i], run[i..j], t, (a: Action) => a.Enter?);
    TallyOfConcat(run[..i], run[i..j], t, (a: Action) => a.Return?);
  }

  lemma EnterInCode(core: bool, n: nat, run: seq<Event>, i: nat)
    requires IsRun(core, n, run) && i < |run| && run[i].action.Enter?
    ensures run[i].thread < n == |At(core, n, run, i).threads|
    ensures var th := At(core, n, run, i).threads[run[i].thread]; th.depth == |th.frames|
  {
    hide After, Step;
    AtStep(core, n, run, i);
    ThreadCount(core, n, run, i);
    PrefixIsRun(core, n, run, i);
    AlwaysSound(core, n, run[..i], run[i].thread);
  }

  lemma ReturnToCode(core: bool, n: nat, run: seq<Event>, j: nat)
    requires IsRun(core, n, run) && j < |run| && run[j].action.Return?
    ensures run[j].thread < n == |At(core, n, run, j + 1).threads|
    ensures var th := At(core, n, run, j + 1).threads[run[j].thread]; th.depth == |th.frames|
  {
    hide After;
    AtStep(core, n, run, j);
    ThreadCount(core, n, run, j);
    PrefixIsRun(core, n, run, j);
    AlwaysSound(core, n, run[..j], run[j].thread);
    ReturnStep(At(core, n, run, j).threads[run[j].thread]);
  }

  lemma ReturnStep(t: Thread)
    requires Sound(t) && CanDo(t, Return)
    ensures var u := ThreadAfter(t, Return); u.depth == |u.frames|
  {
  }

  // ---------------------------------------------------------------- where a panic goes

  /** Nothing but thread `t` itself changes thread `t`. */
  lemma {:induction false} OthersLeaveAlone(core: bool, n: nat, run: seq<Event>, t: nat, i: nat, j: nat)
    requires IsRun(core, n, run) && t < n && i <= j <= |run|
    requires forall k :: i <= k < j ==> run[k].thread != t
    ensures |At(core, n, run, i).threads| == n == |At(core, n, run, j).threads|
    ensures At(core, n, run, j).threads[t] == At(core, n, run, i).threads[t]
    decreases j - i
  {
    hide At;
    ThreadCount(core, n, run, i);
    ThreadCount(core, n, run, j);
    if i < j {
      ThreadCount(core, n, run, j - 1);
      OthersLeaveAlone(core, n, run, t, i, j - 1);
      AtStep(core, n, run, j - 1);
    }
  }

  /** The next event of thread `t` after event `i` is event `j`. */
  ghost predicate NextOf(run: seq<Event>, t: nat, i: nat, j: nat) {
    i < j < |run| && run[i].thread == t && run[j].thread == t && forall k :: i < k < j ==> run[k].thread != t
  }

  /** The thread after its event `i`, still so when its next event `j` comes. */
  lemma AtNext(core: bool, n: nat, run: seq<Event>, t: nat, i: nat, j: nat)
    requires IsRun(core, n, run) && NextOf(run, t, i, j) && t < n
    ensures |At(core, n, run, i).threads| == n == |At(core, n, run, j).threads|
    ensures CanDo(At(core, n, run, i).threads[t], run[i].action)
    ensures At(core, n, run, j).threads[t] == ThreadAfter(At(core, n, run, i).threads[t], run[i].action)
    ensures CanDo(At(core, n, run, j).threads[t], run[j].action)
  {
    hide At, CanDo, ThreadAfter;
    ThreadCount(core, n, run, i);
    AtStep(core, n, run, i);
    AtStep(core, n, run, j);
    OthersLeaveAlone(core, n, run, t, i + 1, j);
  }

  /** A panic inside a scope, whatever the other threads do meanwhile: the thread's next event is the
      hook, which ends nothing; the one after that is the catch, by the innermost scope of this thread,
      which comes away with the panic's message while the scopes around it go on running. */
  lemma PanicReachesInnermost(core: bool, n: nat, run: seq<Event>, t: nat, i: nat, j: nat, k: nat)
    requires IsRun(core, n, run) && t < n && NextOf(run, t, i, j) && NextOf(run, t, j, k) && run[i].action.Panic?
    requires |At(core, n, run, i).threads| == n && At(core, n, run, i).threads[t].depth > 0
    ensures run[j].action == Hook && At(core, n, run, j + 1).ended.None?
    ensures run[k].action == Catch
    ensures |At(core, n, run, k + 1).threads| == n
    ensures var before, after := At(core, n, run, i).threads[t].frames, At(core, n, run, k + 1).threads[t].frames;
            && before != [] && |after| == |before|
            && after[..|before| - 1] == before[..|before| - 1]
            && after[|before| - 1] == Frame(before[|before| - 1].what, Stage.Caught(Failed(run[i].action.message)))
  {
    hide At;
    AtNext(core, n, run, t, i, j);
    AtNext(core, n, run, t, j, k);
    AtStep(core, n, run, j);
    AtStep(core, n, run, k);
    ThreadCount(core, n, run, k);
    SoundAt(core, n, run, i, t);
    assert run[j].action == Hook;
    var th := At(core, n, run, i).threads[t];
    assert At(core, n, run, k).threads[t] == Thread(th.depth, th.frames, Unwinding(run[i].action.message));
    assert run[k].action == Catch;
  }

  /** What was caught comes back: the thread's next three events drop the guard, count the panic and
      return the error, with the scope's name and the panic's message. */
  lemma CaughtIsReturned(core: bool, n: nat, run: seq<Event>, t: nat, i: nat, j: nat, k: nat, l: nat)
    requires IsRun(core, n, run) && t < n
    requires NextOf(run, t, i, j) && NextOf(run, t, j, k) && NextOf(run, t, k, l) && run[i].action.Catch?
    ensures run[j].action == Leave && run[k].action == Count && run[l].action == Return
    ensures At(core, n, run, k + 1).contained == At(core, n, run, k).contained + 1
    ensures |At(core, n, run, i).threads| == n
    ensures var th := At(core, n, run, i).threads[t];
            && th.frames != [] && th.mode.Unwinding?
            && At(core, n, run, l + 1).answers ==
               At(core, n, run, l).answers + [Answer(t, Top(th).what, Failed(th.mode.message))]
  {
    hide At;
    AtNext(core, n, run, t, i, j);
    AtNext(core, n, run, t, j, k);
    AtNext(core, n, run, t, k, l);
    AtStep(core, n, run, k);
    AtStep(core, n, run, l);
    SoundAt(core, n, run, i, t);
    var th := At(core, n, run, i).threads[t];
    var caught := At(core, n, run, j).threads[t];
    assert Top(caught) == Frame(Top(th).what, Stage.Caught(Failed(th.mode.message))) && caught.mode == Normal;
    var dropped := At(core, n, run, k).threads[t];
    assert Top(dropped) == Frame(Top(th).what, Dropped(Failed(th.mode.message)));
    var counted := At(core, n, run, l).threads[t];
    assert Top(counted) == Frame(Top(th).what, Counted(th.mode.message));
  }

  lemma SoundAt(core: bool, n: nat, run: seq<Event>, k: nat, t: nat)
    requires IsRun(core, n, run) && k <= |run| && t < n
    ensures |At(core, n, run, k).threads| == n && Sound(At(core, n, run, k).threads[t])
  {
    hide After, Sound;
    PrefixIsRun(core, n, run, k);
    AlwaysSound(core, n, run[..k], t);
  }

  /** The process has ended exactly when the last event was the hook of a thread outside every scope,
      and then it ends as the policy says. */
  lemma EndsOnlyOutside(core: bool, n: nat, run: seq<Event>)
    requires IsRun(core, n, run)
    ensures After(core, n, run).ended.Some? <==>
            && run != [] && run[|run| - 1].action.Hook?
            && (IsRun(core, n, run[..|run| - 1]) && run[|run| - 1].thread < |After(core, n, run[..|run| - 1]).threads|)
            && After(core, n, run[..|run| - 1]).threads[run[|run| - 1].thread].frames == []
    ensures After(core, n, run).ended.Some? ==> After(core, n, run).ended.value == PanicScopes.PostReportAction(core)
  {
    if run != [] {
      var before, e := run[..|run| - 1], run[|run| - 1];
      RunThreads(core, n, before);
      AlwaysSound(core, n, before, e.thread);
    }
  }

  /** A panic outside every scope ends the process as soon as its thread goes on. */
  lemma PanicOutsideEnds(core: bool, n: nat, run: seq<Event>, t: nat, i: nat, j: nat)
    requires IsRun(core, n, run) && t < n && NextOf(run, t, i, j) && run[i].action.Panic?
    requires |At(core, n, run, i).threads| == n && At(core, n, run, i).threads[t].depth == 0
    ensures run[j].action == Hook && j == |run| - 1
    ensures After(core, n, run).ended == Some(PanicScopes.PostReportAction(core))
  {
    hide At;
    AtNext(core, n, run, t, i, j);
    AtStep(core, n, run, j);
    assert run[j].action == Hook;
    if j + 1 < |run| {
      AtStep(core, n, run, j + 1);
    }
    AtEnd(core, n, run);
  }

  lemma AtEnd(core: bool, n: nat, run: seq<Event>)
    requires IsRun(core, n, run)
    ensures At(core, n, run, |run|) == After(core, n, run)
  {
    assert run[..|run|] == run;
  }

  // ---------------------------------------------------------------- the count

  function Errors(answers: seq<Answer>): nat {
    if answers == [] then 0 else Errors(answers[..|answers| - 1]) + (if answers[|answers| - 1].r.Failed? then 1 else 0)
  }

  /** The threads that satisfy `p`. */
  function Threads(threads: seq<Thread>, p: Thread -> bool): nat {
    if threads == [] then 0 else (if p(threads[0]) then 1 else 0) + Threads(threads[1..], p)
  }

  /** The thread has counted its panic and not yet returned the error. */
  predicate Returning(t: Thread) {
    t.frames != [] && Top(t).stage.Counted?
  }

  /** The thread has a panic that is not counted yet. */
  predicate PanicUnderway(t: Thread) {
    || !t.mode.Normal?
    || (t.frames != [] && (Top(t).stage.Caught? || Top(t).stage.Dropped?) && Top(t).stage.r.Failed?)
  }

  function One(b: bool): nat {
    if b then 1 else 0
  }

  lemma {:induction false} ThreadsUpdate(threads: seq<Thread>, p: Thread -> bool, t: nat, u: Thread)
    requires t < |threads|
    ensures Threads(threads[t := u], p) + One(p(threads[t])) == Threads(threads, p) + One(p(u))
  {
    if t == 0 {
      assert threads[t := u][1..] == threads[1..];
    } else {
      assert threads[t := u][1..] == threads[1..][t - 1 := u];
      ThreadsUpdate(threads[1..], p, t - 1, u);
    }
  }

  lemma {:induction false} NoIdleThread(n: nat, p: Thread -> bool)
    requires !p(IDLE)
    ensures Threads(Start(n).threads, p) == 0
  {
    var threads := Start(n).threads;
    if n > 0 {
      assert threads[1..] == Start(n - 1).threads;
      NoIdleThread(n - 1, p);
    }
  }

  lemma ErrorsAppend(answers: seq<Answer>, a: Answer)
    ensures Errors(answers + [a]) == Errors(answers) + One(a.r.Failed?)
  {
    assert (answers + [a])[..|answers|] == answers;
  }

  lemma ReturningStep(t: Thread, a: Action)
    requires Sound(t) && CanDo(t, a)
    ensures One(Returning(ThreadAfter(t, a))) ==
            One(Returning(t)) + One(a.Count?) - One(a.Return? && Top(t).stage.Counted?)
  {
  }

  lemma UnderwayStep(t: Thread, a: Action)
    requires Sound(t) && CanDo(t, a)
    ensures One(PanicUnderway(ThreadAfter(t, a))) == One(PanicUnderway(t)) + One(a.Panic?) - One(a.Count?)
  {
  }

  /** `contained_panics` is the number of errors `contain` has returned, plus those it is about to. */
  lemma {:induction false} CountedAreErrors(core: bool, n: nat, run: seq<Event>)
    requires IsRun(core, n, run)
    ensures var s := After(core, n, run);
            s.contained == Errors(s.answers) + Threads(s.threads, Returning)
  {
    hide Sound, CanDo, ThreadAfter, Returning, Errors, Threads;
    if run == [] {
      NothingYet(n);
    } else {
      var before, e := run[..|run| - 1], run[|run| - 1];
      CountedAreErrors(core, n, before);
      RunThreads(core, n, before);
      AlwaysSound(core, n, before, e.thread);
      CountStep(core, After(core, n, before), e);
    }
  }

  lemma NothingYet(n: nat)
    ensures Errors(Start(n).answers) == 0 && Threads(Start(n).threads, Returning) == 0
    ensures Threads(Start(n).threads, PanicUnderway) == 0
  {
    NoIdleThread(n, Returning);
    NoIdleThread(n, PanicUnderway);
  }

  lemma CountStep(core: bool, s: State, e: Event)
    requires Enabled(s, e) && Sound(s.threads[e.thread])
    requires s.contained == Errors(s.answers) + Threads(s.threads, Returning)
    ensures var u := Step(core, s, e);
            u.contained == Errors(u.answers) + Threads(u.threads, Returning)
  {
    hide Sound, ThreadAfter, Returning, Errors, Threads;
    var t := s.threads[e.thread];
    ReturningStep(t, e.action);
    ThreadsUpdate(s.threads, Returning, e.thread, ThreadAfter(t, e.action));
    if e.action.Return? {
      ErrorsAppend(s.answers, AnswerOf(e, t));
    } else {
      assert s.answers + [] == s.answers;
    }
  }

  /** With no thread between counting its panic and returning, the two numbers are the same. */
  lemma ContainedEqualsErrors(core: bool, n: nat, run: seq<Event>)
    requires IsRun(core, n, run)
    requires forall t :: 0 <= t < |After(core, n, run).threads| ==> !Returning(After(core, n, run).threads[t])
    ensures After(core, n, run).contained == Errors(After(core, n, run).answers)
  {
    hide After, Returning, Errors;
    CountedAreErrors(core, n, run);
    NoneSuch(After(core, n, run).threads, Returning);
  }

  lemma {:induction false} NoneSuch(threads: seq<Thread>, p: Thread -> bool)
    requires forall t :: 0 <= t < |threads| ==> !p(threads[t])
    ensures Threads(threads, p) == 0
  {
    if threads != [] {
      NoneSuch(threads[1..], p);
    }
  }

  function Panics(run: seq<Event>): nat {
    if run == [] then 0 else Panics(run[..|run| - 1]) + One(run[|run| - 1].action.Panic?)
  }

  /** No panic is lost: each one is counted or still under way on its thread. */
  lemma {:induction false} PanicsAreConserved(core: bool, n: nat, run: seq<Event>)
    requires IsRun(core, n, run)
    ensures var s := After(core, n, run);
            Panics(run) == s.contained + Threads(s.threads, PanicUnderway)
  {
    hide Sound, CanDo, ThreadAfter, PanicUnderway, Threads;
    if run == [] {
      NothingYet(n);
    } else {
      var before, e := run[..|run| - 1], run[|run| - 1];
      PanicsAreConserved(core, n, before);
      RunThreads(core, n, before);
      AlwaysSound(core, n, before, e.thread);
      var s := After(core, n, before);
      UnderwayStep(s.threads[e.thread], e.action);
      ThreadsUpdate(s.threads, PanicUnderway, e.thread, ThreadAfter(s.threads[e.thread], e.action));
    }
  }
}
