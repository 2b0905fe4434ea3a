/** The bounded session loop `run_with_continuation`.  What each session prints and what
    the handoff, done-check, sentinel and prompt-file probes answer is arbitrary. */
module Continuation {
  import opened Basics

  // Which of the four commands a session was started with.
  datatype Kind = Initial | Guillotine | ExplicitHandoff | Resume

  datatype Session = Session(code: int, stdout: string, stderr: string,
                             handoff: bool,        // detect_context_handoff(stdout)
                             promptTooLong: bool)  // "prompt is too long" in stderr

  // The environment: the n-th session and the probes made after it.
  datatype Env = Env(session: nat -> Session, alreadyDone: nat -> bool, sentinel: nat -> bool, promptFile: nat -> bool)

  // What one call leaves behind.
  datatype Result = Result(code: int, kinds: seq<Kind>, stdout: seq<string>, stderr: seq<string>, continuations: int)

  // The start kinds a well-behaved call may produce: only the first session is initial,
  // an explicit handoff turn never follows a guillotine session or another handoff turn,
  // a resume follows only a handoff turn, and a handoff turn is followed by nothing else.
  predicate MayFollow(before: Kind, next: Kind) {
    match next
    case Initial => false
    case Guillotine => !before.ExplicitHandoff?
    case ExplicitHandoff => before.Initial? || before.Resume?
    case Resume => before.ExplicitHandoff?
  }

  // The probes after session `n` that lead to a next session of the given kind, as long as
  // the budget lasts.  Of the kinds that may follow, at most one is ever caused.
  predicate Caused(env: Env, n: nat, kind: Kind) {
    match kind
    case Initial => false
    case Guillotine => !env.session(n).handoff && env.session(n).promptTooLong && !env.alreadyDone(n)
    case ExplicitHandoff => !env.session(n).handoff && !env.session(n).promptTooLong && env.sentinel(n)
    case Resume => env.session(n).handoff && env.promptFile(n)
  }

  // Session `n`, of kind `before`, leads to one of kind `next`.
  predicate LeadsTo(env: Env, before: Kind, n: nat, next: Kind) {
    MayFollow(before, next) && Caused(env, n, next)
  }

  ghost predicate WellFormed(env: Env, kinds: seq<Kind>) {
    && (kinds != [] ==> kinds[0].Initial?)
    && forall i | 1 <= i < |kinds| :: LeadsTo(env, kinds[i - 1], i - 1, kinds[i])
  }

  // The collected output lists are parallel to the sessions.
  ghost predicate Outputs(env: Env, r: Result) {
    && |r.stdout| == |r.stderr| == |r.kinds|
    && forall i | 0 <= i < |r.kinds| ::
         r.stdout[i] == env.session(i).stdout && r.stderr[i] == env.session(i).stderr
  }

  ghost predicate MayStart(env: Env, kinds: seq<Kind>, command: Kind) {
    if kinds == [] then command.Initial?
    else LeadsTo(env, kinds[|kinds| - 1], |kinds| - 1, command)
  }

  ghost predicate Logged(env: Env, kinds: seq<Kind>, stdout: seq<string>, stderr: seq<string>) {
    WellFormed(env, kinds) && Outputs(env, Result(0, kinds, stdout, stderr, 0))
  }

  lemma LogSession(env: Env, kinds: seq<Kind>, stdout: seq<string>, stderr: seq<string>, command: Kind)
    requires Logged(env, kinds, stdout, stderr) && MayStart(env, kinds, command)
    ensures Logged(env, kinds + [command], stdout + [env.session(|kinds|).stdout],
        stderr + [env.session(|kinds|).stderr])
  {
    hide LeadsTo;
    var more := kinds + [command];
    forall i | 1 <= i < |more| ensures LeadsTo(env, more[i - 1], i - 1, more[i]) {
      if i < |kinds| {
        assert LeadsTo(env, kinds[i - 1], i - 1, kinds[i]);
      }
    }
  }

  lemma LogMeans(env: Env, r: Result)
    requires Logged(env, r.kinds, r.stdout, r.stderr)
    ensures WellFormed(env, r.kinds) && Outputs(env, r)
  {}

  lemma LogStart(env: Env)
    ensures Logged(env, [], [], [])
  {}

  // The budget is spent, or nothing after the last session leads to another one.
  ghost predicate Exhausted(env: Env, kinds: seq<Kind>, maxContinuations: int) {
    kinds != [] && (|kinds| - 1 < maxContinuations ==> LeadsNowhere(env, kinds[|kinds| - 1], |kinds| - 1))
  }

  ghost predicate LeadsNowhere(env: Env, before: Kind, n: nat) {
    forall next: Kind :: !LeadsTo(env, before, n, next)
  }

  lemma Finished(env: Env, kinds: seq<Kind>, last: Kind, maxContinuations: int)
    requires |kinds| < maxContinuations ==> !LeadsTo(env, last, |kinds|, Guillotine)
    requires |kinds| < maxContinuations ==> !LeadsTo(env, last, |kinds|, ExplicitHandoff)
    requires |kinds| < maxContinuations ==> !LeadsTo(env, last, |kinds|, Resume)
    ensures Exhausted(env, kinds + [last], maxContinuations)
  {}

  ghost predicate Complete(env: Env, kinds: seq<Kind>, maxContinuations: int) {
    WellFormed(env, kinds) && Exhausted(env, kinds, maxContinuations) && |kinds| - 1 <= maxContinuations
  }

  lemma NextAgrees(env: Env, a: seq<Kind>, b: seq<Kind>, maxContinuations: int, n: nat)
    requires Complete(env, a, maxContinuations) && Complete(env, b, maxContinuations)
    requires 1 <= n < |a| && n <= |b| && a[n - 1] == b[n - 1]
    ensures n < |b| && a[n] == b[n]
  {
    assert LeadsTo(env, a[n - 1], n - 1, a[n]);
    if n < |b| {
      assert LeadsTo(env, b[n - 1], n - 1, b[n]);
    }
  }

  lemma {:induction false} CommonPrefix(env: Env, a: seq<Kind>, b: seq<Kind>, maxContinuations: int, n: nat)
    requires Complete(env, a, maxContinuations) && Complete(env, b, maxContinuations) && n <= |a|
    ensures n <= |b| && a[..n] == b[..n]
  {
    if n > 0 {
      CommonPrefix(env, a, b, maxContinuations, n - 1);
      if n > 1 {
        assert a[n - 2] == a[..n - 1][n - 2] == b[..n - 1][n - 2];
        NextAgrees(env, a, b, maxContinuations, n - 1);
      }
      assert a[..n] == a[..n - 1] + [a[n - 1]] && b[..n] == b[..n - 1] + [b[n - 1]];
    }
  }

  // The sessions a call starts are determined by what the environment answers.
  lemma KindsDetermined(env: Env, a: seq<Kind>, b: seq<Kind>, maxContinuations: int)
    requires Complete(env, a, maxContinuations) && Complete(env, b, maxContinuations)
    ensures a == b
  {
    CommonPrefix(env, a, b, maxContinuations, |a|);
    CommonPrefix(env, b, a, maxContinuations, |b|);
    assert a[..|a|] == a && b[..|b|] == b;
  }

  // Which session follows the i-th one, on the probes alone: a fresh session when the prompt
  // was too long and the issue is not done; a handoff turn when only the sentinel was found,
  // except behind a fresh session; a resume when a handoff turn handed off and left a prompt.
  lemma StepsByProbes(env: Env, kinds: seq<Kind>, maxContinuations: int, i: nat)
    requires Complete(env, kinds, maxContinuations) && i < |kinds|
    ensures kinds[0].Initial?
    ensures i == maxContinuations ==> i + 1 == |kinds|
    ensures i < maxContinuations ==>
      var s, more := env.session(i), i + 1 < |kinds|;
      && (more && kinds[i + 1].Guillotine? <==>
           !kinds[i].ExplicitHandoff? && !s.handoff && s.promptTooLong && !env.alreadyDone(i))
      && (more && kinds[i + 1].ExplicitHandoff? <==>
           (kinds[i].Initial? || kinds[i].Resume?) && !s.handoff && !s.promptTooLong && env.sentinel(i))
      && (more && kinds[i + 1].Resume? <==> kinds[i].ExplicitHandoff? && s.handoff && env.promptFile(i))
  {
    if i + 1 < |kinds| {
      assert LeadsTo(env, kinds[i + 1 - 1], i + 1 - 1, kinds[i + 1]);
    } else if i < maxContinuations {
      assert !LeadsTo(env, kinds[i], i, Guillotine) && !LeadsTo(env, kinds[i], i, ExplicitHandoff);
      assert !LeadsTo(env, kinds[i], i, Resume);
    }
  }

  /** For a non-negative budget the loop is always left by `break`, never by its guard:
      it starts exactly `continuations + 1` sessions, at most `maxContinuations + 1`,
      collects the output of each in order, takes only the allowed steps, and stops only
      when none is left. */
  method RunWithContinuation(env: Env, maxContinuations: int) returns (r: Result, leftByBreak: bool)
    ensures leftByBreak <==> maxContinuations >= 0
    ensures maxContinuations >= 0 ==> |r.kinds| == r.continuations + 1 && r.continuations <= maxContinuations
    ensures maxContinuations < 0 ==> r == Result(1, [], [], [], 0)
    ensures Outputs(env, r) && WellFormed(env, r.kinds)
    ensures maxContinuations >= 0 ==> Complete(env, r.kinds, maxContinuations)
    // Outside a handoff turn, a session that hands off, or that overflows with the issue
    // already done and budget left, reports success whatever its own exit code was.
    ensures r.kinds != [] ==>
      var n := |r.kinds| - 1;
      var s := env.session(n);
      r.code == if !r.kinds[n].ExplicitHandoff?
                   && (s.handoff || (s.promptTooLong && env.alreadyDone(n) && n < maxContinuations)) then 0
                else s.code
    ensures |r.stdout| == |r.stderr| == |r.kinds| && forall i | 0 <= i < |r.kinds| ::
      r.stdout[i] == env.session(i).stdout && r.stderr[i] == env.session(i).stderr
  {
    hide Logged, Outputs, WellFormed, Exhausted;
    LogStart(env);
    var kinds: seq<Kind>, stdout: seq<string>, stderr: seq<string> := [], [], [];
    var code, continuations := 1, 0;
    var command := Initial;
    var justRanFresh := false;
    leftByBreak := false;
    while continuations <= maxContinuations
      invariant 0 <= continuations && (continuations <= maxContinuations || continuations == 0)
      invariant !leftByBreak && |kinds| == continuations
      invariant Logged(env, kinds, stdout, stderr) && MayStart(env, kinds, command)
      invariant kinds == [] ==> code == 1 && stdout == [] && stderr == []
      invariant !command.ExplicitHandoff? && (justRanFresh <==> command.Guillotine?)
      decreases maxContinuations - continuations
    {
      var thisIsFresh := justRanFresh;
      justRanFresh := false;
      var n := |kinds|;
      var s := env.session(n);
      code := s.code;
      LogSession(env, kinds, stdout, stderr, command);
      ghost var before, started := kinds, command;
      kinds, stdout, stderr := kinds + [command], stdout + [s.stdout], stderr + [s.stderr];

      if s.handoff {
        Finished(env, before, started, maxContinuations);
        if env.alreadyDone(n) {
          code := 0;
          leftByBreak := true;
          break;
        }
        code := 0;
        leftByBreak := true;
        break;
      }

      if s.promptTooLong && continuations < maxContinuations {
        if env.alreadyDone(n) {
          Finished(env, before, started, maxContinuations);
          code := 0;
          leftByBreak := true;
          break;
        }
        continuations := continuations + 1;
        command := Guillotine;
        justRanFresh := true;
        continue;
      }

      if env.sentinel(n) && thisIsFresh {
        // Consumed without a handoff turn: the fresh session already did the work.
      } else if env.sentinel(n) && continuations < maxContinuations {
        continuations := continuations + 1;
        command := ExplicitHandoff;
        var t := env.session(n + 1);
        code := t.code;
        LogSession(env, kinds, stdout, stderr, command);
        before := kinds;
        kinds, stdout, stderr := kinds + [command], stdout + [t.stdout], stderr + [t.stderr];
        if t.handoff {
          if env.promptFile(n + 1) && continuations < maxContinuations {
            continuations := continuations + 1;
            command := Resume;
            continue;
          }
        }
        Finished(env, before, ExplicitHandoff, maxContinuations);
        leftByBreak := true;
        break;
      }
      Finished(env, before, started, maxContinuations);
      leftByBreak := true;
      break;
    }
    r := Result(code, kinds, stdout, stderr, continuations);
    LogMeans(env, r);
    OutputsMean(env, r);
  }

  lemma OutputsMean(env: Env, r: Result)
    requires Outputs(env, r)
    ensures |r.stdout| == |r.stderr| == |r.kinds| && forall i | 0 <= i < |r.kinds| ::
      r.stdout[i] == env.session(i).stdout && r.stderr[i] == env.session(i).stderr
  {}

  // No handoff turn is sent on a sentinel seen right after a guillotine session, and
  // between two handoff turns there is always a resume.
  lemma NoHandoffAfterGuillotine(env: Env, kinds: seq<Kind>, i: nat)
    requires WellFormed(env, kinds) && i + 1 < |kinds| && kinds[i + 1].ExplicitHandoff?
    ensures !kinds[i].Guillotine?
    ensures i + 2 < |kinds| ==> kinds[i + 2].Resume?
  {
    var j := i + 1;
    assert LeadsTo(env, kinds[j - 1], j - 1, kinds[j]);
    if j + 1 < |kinds| {
      var k := j + 1;
      assert LeadsTo(env, kinds[k - 1], k - 1, kinds[k]);
    }
  }
}
