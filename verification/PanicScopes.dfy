/** `crash.rs`, panic containment on one thread: `contain`, the `ContainScope` guard, the panic hook's
    decision, and the counter of contained panics. */
module PanicScopes {

  /** How the process ends after a report. */
  datatype PostAction = Abort | Exit(code: int)

  /** With core dumps wanted the process aborts, otherwise it exits with 101. */
  function PostReportAction(core: bool): PostAction {
    if core then Abort else Exit(101)
  }

  /** A panic turned into an error: the scope's name and the panic's message. */
  datatype Contained = Contained(what: string, message: string)

  /** Code as far as panics go. `Contains` is a call of `contain` on `body`; what follows may depend on
      whether it gave a value or an error. */
  datatype Code =
    | Quiet
    | Panics(message: string)
    | Then(first: Code, rest: Code)
    | Contains(what: string, body: Code, onOk: Code, onErr: Code)

  datatype Outcome = Finished | Unwinding(message: string) | Ended(action: PostAction)

  /** What running the code comes to, `depth` scopes deep, and the errors that scopes gave, in order. */
  datatype Result = Result(outcome: Outcome, errors: seq<Contained>)

  function After(errors: seq<Contained>, r: Result): Result {
    Result(r.outcome, errors + r.errors)
  }

  function Meaning(core: bool, code: Code, depth: nat): Result {
    match code
    case Quiet => Result(Finished, [])
    case Panics(message) => Result(if depth > 0 then Unwinding(message) else Ended(PostReportAction(core)), [])
    case Then(first, rest) =>
      var r := Meaning(core, first, depth);
      if r.outcome.Finished? then After(r.errors, Meaning(core, rest, depth)) else r
    case Contains(what, body, onOk, onErr) =>
      var r := Meaning(core, body, depth + 1);
      match r.outcome
      case Finished => After(r.errors, Meaning(core, onOk, depth))
      case Unwinding(message) => After(r.errors + [Contained(what, message)], Meaning(core, onErr, depth))
      case Ended(_) => r
  }

  /** One thread, with its depth of scopes, and the process-wide count and log of contained panics. */
  class Runtime {
    const core: bool
    var depth: nat
    var contained: nat
    var errors: seq<Contained>

    constructor (core: bool)
      ensures this.core == core && depth == 0 && contained == 0 && errors == []
    {
      this.core := core;
      depth, contained, errors := 0, 0, [];
    }

    /** `ContainScope::enter`. */
    method Enter()
      modifies `depth
      ensures depth == old(depth) + 1
    {
      depth := depth + 1;
    }

    /** The guard's `drop`, a decrement that stops at zero. */
    method Leave()
      modifies `depth
      ensures depth == if old(depth) > 0 then old(depth) - 1 else 0
    {
      depth := if depth > 0 then depth - 1 else 0;
    }

    /** The decision of the panic hook: inside a scope it returns, and the unwind goes on. */
    method Hook(message: string) returns (outcome: Outcome)
      ensures outcome == if depth > 0 then Unwinding(message) else Ended(PostReportAction(core))
    {
      if depth > 0 {
        return Unwinding(message);
      }
      return Ended(PostReportAction(core));
    }

    /** Run code. However it goes, unless the process ends, the depth is what it was; every error
        a scope gave is counted once. */
    method Run(code: Code) returns (outcome: Outcome)
      modifies `depth, `contained, `errors
      ensures outcome == Meaning(core, code, old(depth)).outcome
      ensures errors == old(errors) + Meaning(core, code, old(depth)).errors
      ensures contained == old(contained) + |Meaning(core, code, old(depth)).errors|
      ensures !outcome.Ended? ==> depth == old(depth)
      decreases code
    {
      match code {
        case Quiet =>
          outcome := Finished;
        case Panics(message) =>
          outcome := Hook(message);
        case Then(first, rest) =>
          outcome := Run(first);
          if outcome.Finished? {
            outcome := Run(rest);
          }
        case Contains(what, body, onOk, onErr) =>
          Enter();
          outcome := Run(body);
          if outcome.Ended? {
            return;
          }
          Leave();
          if outcome.Unwinding? {
            contained := contained + 1;
            errors := errors + [Contained(what, outcome.message)];
            outcome := Run(onErr);
          } else {
            outcome := Run(onOk);
          }
      }
    }
  }

  /** Inside a scope nothing ends the process; outside every scope nothing keeps unwinding. */
  lemma {:induction false} ScopesContain(core: bool, code: Code, depth: nat)
    ensures var o := Meaning(core, code, depth).outcome;
            (depth > 0 ==> !o.Ended?) && (depth == 0 ==> !o.Unwinding?)
    decreases code
  {
    match code {
      case Quiet =>
      case Panics(_) =>
      case Then(first, rest) =>
        ScopesContain(core, first, depth);
        ScopesContain(core, rest, depth);
      case Contains(_, body, onOk, onErr) =>
        ScopesContain(core, body, depth + 1);
        ScopesContain(core, onOk, depth);
        ScopesContain(core, onErr, depth);
    }
  }

  /** How deep it runs makes no difference to the errors the code's own scopes give, and the depth
      decides only what becomes of a panic that none of them contains. */
  lemma {:induction false} DepthDecidesTheRest(core: bool, code: Code, depth: nat)
    requires depth > 0
    ensures var inside, outside := Meaning(core, code, depth), Meaning(core, code, 0);
            && inside.errors == outside.errors
            && (inside.outcome.Finished? <==> outside.outcome.Finished?)
            && (inside.outcome.Unwinding? <==> outside.outcome == Ended(PostReportAction(core)))
    decreases code
  {
    match code {
      case Quiet =>
      case Panics(_) =>
      case Then(first, rest) =>
        DepthDecidesTheRest(core, first, depth);
        DepthDecidesTheRest(core, rest, depth);
      case Contains(_, body, onOk, onErr) =>
        SameBelow(core, body, depth + 1, 1);
        DepthDecidesTheRest(core, onOk, depth);
        DepthDecidesTheRest(core, onErr, depth);
        ScopesContain(core, body, depth + 1);
    }
  }

  lemma {:induction false} SameBelow(core: bool, code: Code, a: nat, b: nat)
    requires a > 0 && b > 0
    ensures Meaning(core, code, a) == Meaning(core, code, b)
    decreases code
  {
    match code {
      case Quiet =>
      case Panics(_) =>
      case Then(first, rest) =>
        SameBelow(core, first, a, b);
        SameBelow(core, rest, a, b);
      case Contains(_, body, onOk, onErr) =>
        SameBelow(core, body, a + 1, b + 1);
        SameBelow(core, onOk, a, b);
        SameBelow(core, onErr, a, b);
    }
  }

  /** A scope around code that comes to its end is as if it were not there: the code runs, then what
      follows a value. */
  lemma ScopeOfFinished(core: bool, what: string, body: Code, onOk: Code, onErr: Code, depth: nat)
    requires Meaning(core, body, depth).outcome.Finished?
    ensures Meaning(core, Contains(what, body, onOk, onErr), depth) == Meaning(core, Then(body, onOk), depth)
  {
    if depth > 0 {
      SameBelow(core, body, depth, depth + 1);
    } else {
      DepthDecidesTheRest(core, body, depth + 1);
    }
  }

  /** A scope around code that panics, with whatever ran before, gives one error more, with its own name
      and the message of the panic, and then what follows an error runs. */
  lemma ScopeOfPanic(
    core: bool, what: string, before: Code, message: string, after: Code, onOk: Code, onErr: Code, depth: nat)
    requires Meaning(core, before, depth).outcome.Finished?
    ensures var body := Then(before, Then(Panics(message), after));
            Meaning(core, Contains(what, body, onOk, onErr), depth) ==
            After(Meaning(core, before, depth).errors + [Contained(what, message)], Meaning(core, onErr, depth))
  {
    if depth > 0 {
      SameBelow(core, before, depth, depth + 1);
    } else {
      DepthDecidesTheRest(core, before, depth + 1);
    }
    var ran := Meaning(core, before, depth).errors;
    var rest := Then(Panics(message), after);
    assert Meaning(core, rest, depth + 1) == Result(Unwinding(message), []);
    assert ran + [] == ran;
    assert Meaning(core, Then(before, rest), depth + 1) == Result(Unwinding(message), ran);
  }
}
