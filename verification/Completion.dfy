/** Closing and completing an issue as one transaction over the issue file, the git index
    and the commit history.  Git, the clock and the file system answer through `Env`. */
module Completion {
  import opened Basics
  import opened Text
  import opened Porcelain

  // An issue file: its frontmatter fields and everything else.
  datatype Doc = Doc(fields: map<string, string>, body: string)

  datatype GitStatus = StatusTimeout | StatusFailed | StatusOk(raw: string)
  datatype GitAdd = AddTimeout | AddFailed | Added
  datatype GitCommit = CommitTimeout | CommitFailed | NothingToCommit | Committed

  // The one place, if any, where an exception escapes into the outer handler.  A write fails
  // before it touches the file, or leaves a torn one.
  datatype Trouble =
    | NoTrouble
    | AtRead                        // reading and preparing the content
    | AtWrite(torn: Option<Doc>)    // writing the done content
    | AfterWrite                    // the session log, before staging
    | AtAdd                         // `git add` does not start
    | AtCommit                      // between staging and the answer of `git commit`
    | AtReset
    | AtRollback(torn: Option<Doc>) // writing the prior content back
    | AtEvent                       // after the commit, the event included

  datatype Env = Env(
    status: GitStatus,
    add: GitAdd,
    partial: set<string>,      // what a failed or timed-out `git add` staged anyway
    commit: GitCommit,
    stuck: set<string>,        // what `git reset` left staged; its return code is not looked at
    snapshot: Option<string>,  // the sha `preserve_dirty_tree` returns
    stampFails: bool,
    trouble: Trouble,
    now: string,
    resolution: string)

  datatype CompletionResult = COMMITTED | NOT_CLOSED

  const STATUS := "status"
  const DONE := "done"
  const REQUEUED := "in_progress"

  const STAMPS: set<string> := {"uncommitted_paths", "abandoned_ref", "abandoned_sha"}

  function ValueOr(some: Option<Doc>, other: Doc): Doc {
    if some.Some? then some.value else other
  }

  predicate SameBut(a: Doc, b: Doc, keys: set<string>) {
    a.body == b.body && a.fields - keys == b.fields - keys
  }

  predicate HasStatus(d: Doc, status: string) {
    STATUS in d.fields && d.fields[STATUS] == status
  }

  predicate IsDone(d: Doc) {
    HasStatus(d, DONE)
  }

  class Workspace {
    const issuePath: string
    const refName: string
    const isIssueFile: string -> bool   // resolved-path equality with the issue file
    const noise: string -> bool         // the completion noise filter
    const hasResolution: string -> bool // "## Resolution" in body
    var file: Option<Doc>
    var index: set<string>
    var commits: seq<set<string>>
    var refs: map<string, string>

    constructor (issuePath: string, refName: string, isIssueFile: string -> bool, noise: string -> bool,
                 hasResolution: string -> bool, file: Option<Doc>)
      ensures this.issuePath == issuePath && this.refName == refName
      ensures this.isIssueFile == isIssueFile && this.noise == noise && this.hasResolution == hasResolution
      ensures this.file == file && index == {} && commits == [] && refs == map[]
    {
      this.issuePath, this.refName := issuePath, refName;
      this.isIssueFile, this.noise, this.hasResolution := isIssueFile, noise, hasResolution;
      this.file, index, commits, refs := file, {}, [], map[];
    }

    // The non-noise dirty paths that appeared during the run, without the issue file.
    function RunWindow(entries: seq<string>, preRunDirty: Option<set<string>>): set<string> {
      set p | p in entries && !isIssueFile(p) && !noise(p) && (preRunDirty.None? || p !in preRunDirty.value)
    }

    lemma WindowEmpty(entries: seq<string>)
      ensures RunWindow(entries, None) == {} <==> !exists p :: p in entries && !isIssueFile(p) && !noise(p)
    {
      forall p | p in entries && !isIssueFile(p) && !noise(p) ensures p in RunWindow(entries, None) {}
      if RunWindow(entries, None) != {} {
        var p :| p in RunWindow(entries, None);
      }
    }

    // What `_completion_preflight` decides.
    predicate Proceeds(env: Env, preRunDirty: Option<set<string>>) {
      env.status.StatusOk? && (preRunDirty.Some? || RunWindow(Parse(env.status.raw), preRunDirty) == {})
    }

    function Window(env: Env, preRunDirty: Option<set<string>>): set<string> {
      if env.status.StatusOk? then RunWindow(Parse(env.status.raw), preRunDirty) else {}
    }

    method Preflight(env: Env, preRunDirty: Option<set<string>>) returns (ok: bool, window: set<string>, dirty: nat)
      ensures ok <==> Proceeds(env, preRunDirty)
      ensures !env.status.StatusOk? ==> !ok && dirty == 0
      ensures env.status.StatusOk? ==>
        && (!ok <==> preRunDirty.None? && exists p :: p in Parse(env.status.raw) && !isIssueFile(p) && !noise(p))
        && (ok ==> forall p :: p in window <==>
              && p in Parse(env.status.raw) && !isIssueFile(p) && !noise(p)
              && (preRunDirty.Some? ==> p !in preRunDirty.value))
      ensures ok ==> window == Window(env, preRunDirty)
      ensures !ok ==> dirty == |Window(env, preRunDirty)|
    {
      if !env.status.StatusOk? { return false, {}, 0; }
      var entries := PorcelainPaths(env.status.raw);
      var current := set p | p in entries && !isIssueFile(p);
      var raw := if preRunDirty.None? then current else current - preRunDirty.value;
      window := set p | p in raw && !noise(p);
      assert window == RunWindow(entries, preRunDirty);
      WindowEmpty(entries);
      if preRunDirty.None? && window != {} { return false, {}, |window|; }
      return true, window, 0;
    }

    function Done(env: Env, d: Doc): Doc {
      Doc(d.fields[STATUS := DONE]["completed_at" := env.now],
        if hasResolution(d.body) then d.body else d.body + env.resolution)
    }

    function Stamped(env: Env, d: Doc, dirty: nat, status: Option<string>): Doc {
      var counted := d.fields["uncommitted_paths" := Decimal(dirty)];
      var marked := match env.snapshot
        case Some(sha) => counted["abandoned_ref" := refName]["abandoned_sha" := sha]
        case None => counted;
      Doc(if status.Some? then marked[STATUS := status.value] else marked, d.body)
    }

    // The file of a refusal: the prior content, stamped unless stamping fails.
    function Refused(env: Env, prior: Doc, preRunDirty: Option<set<string>>, status: Option<string>): Doc {
      if env.stampFails then prior else Stamped(env, prior, |Window(env, preRunDirty)|, status)
    }

    function RefsAfter(env: Env, was: map<string, string>): map<string, string> {
      if env.snapshot.Some? then was[refName := env.snapshot.value] else was
    }

    // `_abandon_and_stamp`: preserve the tree to a ref, restore the prior content if it is
    // given, then stamp; a failing stamp is only logged, a failing restore is not.
    method AbandonAndStamp(env: Env, dirty: nat, prior: Option<Doc>, status: Option<string>) returns (raised: bool)
      requires file.Some?
      modifies this`file, this`refs
      ensures raised <==> prior.Some? && env.trouble.AtRollback?
      ensures raised ==> file == Some(ValueOr(env.trouble.torn, old(file).value))
      ensures !raised ==>
        var restored := ValueOr(prior, old(file).value);
        file == Some(if env.stampFails then restored else Stamped(env, restored, dirty, status))
      ensures refs == if env.snapshot.Some? then old(refs)[refName := env.snapshot.value] else old(refs)
    {
      if env.snapshot.Some? { refs := refs[refName := env.snapshot.value]; }
      if prior.Some? {
        if env.trouble.AtRollback? {
          file := Some(ValueOr(env.trouble.torn, file.value));
          return true;
        }
        file := prior;
      }
      if !env.stampFails {
        file := Some(Stamped(env, file.value, dirty, status));
      }
      return false;
    }

    // Adding and committing end well.
    predicate Lands(env: Env) {
      env.add.Added? && (env.commit.Committed? || env.commit.NothingToCommit?)
    }

    // The failures after which the targets are unstaged.
    predicate Resets(env: Env) {
      env.add.AddFailed? || (env.add.Added? && (env.commit.CommitTimeout? || env.commit.CommitFailed?))
    }

    // An exception leaves `_commit_issue_completion`.
    predicate CommitEscapes(env: Env) {
      || env.trouble.AtAdd?
      || (env.trouble.AtCommit? && env.add.Added?)
      || (env.trouble.AtReset? && Resets(env))
    }

    predicate Reaches(env: Env) {
      !(env.trouble.AtRead? || env.trouble.AtWrite? || env.trouble.AfterWrite?)
    }

    // An exception ends in the outer handler, once the preflight has let the call through.
    predicate Escapes(env: Env) {
      || !Reaches(env)
      || CommitEscapes(env)
      || (env.trouble.AtRollback? && !Lands(env))
      || (env.trouble.AtEvent? && Lands(env))
    }

    // The issue file behind an escaping exception.
    function LeftBehind(env: Env, prior: Doc, written: Doc, logged: Doc): Doc {
      match env.trouble
      case AtRead => prior
      case AtWrite(torn) => ValueOr(torn, prior)
      case AfterWrite => written
      case AtRollback(torn) => ValueOr(torn, logged)
      case _ => logged
    }

    // The issue file after a call, `prior` being what was read, `written` what the call
    // writes and `logged` what it commits.
    function FileAfter(env: Env, preRunDirty: Option<set<string>>, prior: Doc, written: Doc, logged: Doc,
                       status: Option<string>): Doc {
      if Proceeds(env, preRunDirty) && Escapes(env) then LeftBehind(env, prior, written, logged)
      else if Proceeds(env, preRunDirty) && Lands(env) then logged
      else Refused(env, prior, preRunDirty, status)
    }

    // The call returns True.
    predicate Succeeds(env: Env, preRunDirty: Option<set<string>>) {
      Proceeds(env, preRunDirty) && !Escapes(env) && Lands(env)
    }

    // A failed call leaves `done` on a file that was not done exactly when an exception
    // escapes after the write.
    lemma HollowDoneIff(env: Env, preRunDirty: Option<set<string>>, prior: Doc, written: Doc, logged: Doc,
                        status: Option<string>)
      requires !IsDone(prior) && IsDone(written) && IsDone(logged)
      requires status.Some? ==> status.value != DONE
      ensures !Succeeds(env, preRunDirty) && IsDone(FileAfter(env, preRunDirty, prior, written, logged, status))
          <==> HollowDone(env, preRunDirty)
    {
      hide Workspace.Proceeds, Workspace.Window, Workspace.CommitEscapes, Workspace.Stamped;
      StampStatus(env, prior, |Window(env, preRunDirty)|, status);
    }

    // A refusal keeps everything but the stamps and, for a requeue, the status.
    lemma RefusalKeeps(env: Env, preRunDirty: Option<set<string>>, prior: Doc, written: Doc, logged: Doc,
                       status: Option<string>)
      requires !(Proceeds(env, preRunDirty) && (Escapes(env) || Lands(env)))
      ensures var left := FileAfter(env, preRunDirty, prior, written, logged, status);
        && SameBut(left, prior, STAMPS + (if status.Some? then {STATUS} else {}))
        && (status.Some? && !env.stampFails ==> HasStatus(left, status.value))
        && (!env.stampFails ==>
             && "uncommitted_paths" in left.fields
             && left.fields["uncommitted_paths"] == Decimal(|Window(env, preRunDirty)|))
    {
      hide Workspace.Proceeds, Workspace.Window, Workspace.CommitEscapes, Workspace.Escapes, Workspace.Stamped;
      StampMeans(env, prior, |Window(env, preRunDirty)|, status);
      StampStatus(env, prior, |Window(env, preRunDirty)|, status);
    }

    // The index when adding, committing and, on a failure, unstaging the targets is over.
    function IndexAfter(env: Env, was: set<string>, targets: set<string>): set<string> {
      var staged := was + (if env.add.Added? then targets else targets * env.partial);
      if env.trouble.AtAdd? then was
      else if env.add.AddTimeout? then staged
      else if CommitEscapes(env) then staged
      else if env.add.Added? && env.commit.NothingToCommit? then staged
      else if env.add.Added? && env.commit.Committed? then {}
      else staged - (targets - env.stuck)
    }

    // A completion that does not commit leaves what was staged of other paths alone, and
    // unstages the targets themselves when the reset works.
    lemma IndexKept(env: Env, was: set<string>, targets: set<string>)
      requires CommitEscapes(env) || !(env.add.Added? && env.commit.Committed?)
      ensures IndexAfter(env, was, targets) - targets == was - targets
      ensures env.stuck == {} && Resets(env) && !CommitEscapes(env) ==>
                IndexAfter(env, was, targets) == was - targets
    {}

    // `_commit_issue_completion`: the commit takes the whole index, which holds the issue
    // file, the run window and whatever was staged before.
    method CommitCompletion(env: Env, window: set<string>) returns (result: CompletionResult, raised: bool)
      modifies this`index, this`commits
      ensures raised <==> CommitEscapes(env)
      ensures result.COMMITTED? <==> !raised && Lands(env)
      ensures raised <==>
        || env.trouble.AtAdd?
        || (env.trouble.AtCommit? && env.add.Added?)
        || (env.trouble.AtReset?
            && (env.add.AddFailed? || (env.add.Added? && (env.commit.CommitTimeout? || env.commit.CommitFailed?))))
      ensures result.COMMITTED? <==>
        !raised && env.add.Added? && (env.commit.Committed? || env.commit.NothingToCommit?)
      ensures raised ==>
        index == if env.trouble.AtAdd? then old(index)
                 else old(index) + (if env.add.Added? then {issuePath} + window
                                    else ({issuePath} + window) * env.partial)
      ensures result.COMMITTED? ==>
        index == if env.commit.Committed? then {} else old(index) + ({issuePath} + window)
      ensures result.NOT_CLOSED? && !raised ==>
        var targets := {issuePath} + window;
        index == match env.add
                 case AddTimeout => old(index) + targets * env.partial
                 case AddFailed => old(index) + targets * env.partial - (targets - env.stuck)
                 case Added => old(index) + targets - (targets - env.stuck)
      ensures commits == if result.COMMITTED? && env.commit.Committed?
        then old(commits) + [old(index) + ({issuePath} + window)] else old(commits)
      ensures index == IndexAfter(env, old(index), {issuePath} + window)
    {
      var targets := {issuePath} + window;
      if env.trouble.AtAdd? { return NOT_CLOSED, true; }
      if env.add.AddTimeout? {
        index := index + targets * env.partial;
        return NOT_CLOSED, false;
      }
      if env.add.AddFailed? {
        index := index + targets * env.partial;
        if env.trouble.AtReset? { return NOT_CLOSED, true; }
        index := index - (targets - env.stuck);
        return NOT_CLOSED, false;
      }
      index := index + targets;
      if env.trouble.AtCommit? { return NOT_CLOSED, true; }
      match env.commit {
        case CommitTimeout =>
          if env.trouble.AtReset? { return NOT_CLOSED, true; }
          index := index - (targets - env.stuck);
          return NOT_CLOSED, false;
        case NothingToCommit =>
          return COMMITTED, false;
        case CommitFailed =>
          if env.trouble.AtReset? { return NOT_CLOSED, true; }
          index := index - (targets - env.stuck);
          return NOT_CLOSED, false;
        case Committed =>
          commits := commits + [index];
          index := {};
          return COMMITTED, false;
      }
    }

    // What closing and completing share: the commit, and the rollback of a refused one.
    method CommitOrRestore(env: Env, window: set<string>, prior: Doc, status: Option<string>)
      returns (landed: bool, raised: bool)
      requires file.Some? && Reaches(env)
      modifies this
      ensures landed <==> !Escapes(env) && Lands(env)
      ensures raised <==> Escapes(env)
      ensures file == Some(
        if raised then LeftBehind(env, prior, old(file).value, old(file).value)
        else if landed then old(file).value
        else if env.stampFails then prior else Stamped(env, prior, |window|, status))
      ensures index == IndexAfter(env, old(index), {issuePath} + window)
      ensures commits == if Commits(env) then old(commits) + [old(index) + ({issuePath} + window)] else old(commits)
      ensures refs == if !CommitEscapes(env) && !Lands(env) then RefsAfter(env, old(refs)) else old(refs)
    {
      hide Workspace.IndexAfter, Workspace.Stamped;
      var result;
      result, raised := CommitCompletion(env, window);
      if raised { return false, true; }
      if result.NOT_CLOSED? {
        raised := AbandonAndStamp(env, |window|, Some(prior), status);
        return false, raised;
      }
      if env.trouble.AtEvent? { return false, true; }
      return true, false;
    }

    // The index and the history after a call that `ran` the completion or did not.
    ghost predicate Transacted(env: Env, preRunDirty: Option<set<string>>, ran: bool,
                               index0: set<string>, commits0: seq<set<string>>)
      reads this
    {
      var targets := {issuePath} + Window(env, preRunDirty);
      if ran && Proceeds(env, preRunDirty) && Reaches(env) then
        && index == IndexAfter(env, index0, targets)
        && commits == if Commits(env) then commits0 + [index0 + targets] else commits0
      else
        index == index0 && commits == commits0
    }

    predicate Commits(env: Env) {
      !CommitEscapes(env) && env.add.Added? && env.commit.Committed?
    }

    // The working tree is preserved to the ref.
    predicate Preserves(env: Env, preRunDirty: Option<set<string>>) {
      !Proceeds(env, preRunDirty) || (Reaches(env) && !CommitEscapes(env) && !Lands(env))
    }

    // A call that fails and yet leaves `done` on the file: an exception escapes after the write.
    predicate HollowDone(env: Env, preRunDirty: Option<set<string>>) {
      && Proceeds(env, preRunDirty) && Escapes(env)
      && match env.trouble
         case AtRead => false
         case AtWrite(torn) => torn.Some? && IsDone(torn.value)
         case AtRollback(torn) => torn.Some? ==> IsDone(torn.value)
         case _ => true
    }

    /** `close_issue`.  It succeeds exactly when nothing stops it; a refusal leaves the prior
        content apart from stamps; an escaping exception leaves whatever was on the file. */
    method CloseIssue(env: Env, vetoed: bool, preRunDirty: Option<set<string>>) returns (closed: bool, raised: bool)
      modifies this
      ensures old(file).None? ==> closed && !raised && file.None?
      ensures old(file).Some? ==>
        && (closed <==> !vetoed && Proceeds(env, preRunDirty) && !Escapes(env) && Lands(env))
        && (raised <==> !vetoed && Proceeds(env, preRunDirty) && Escapes(env))
      ensures old(file).Some? ==>
        var content := Done(env, old(file).value);
        file == if vetoed then old(file)
                else Some(FileAfter(env, preRunDirty, old(file).value, content, content, None))
      ensures old(file).Some? && closed ==>
        && file.value.fields == old(file).value.fields["status" := "done"]["completed_at" := env.now]
        && file.value.body == if hasResolution(old(file).value.body) then old(file).value.body
                              else old(file).value.body + env.resolution
      ensures old(file).Some? && closed && env.commit.Committed? && preRunDirty.None? ==>
        commits == old(commits) + [old(index) + {issuePath}]
      ensures old(file).Some? && !vetoed && !closed && !raised ==>
        && SameBut(file.value, old(file).value, STAMPS)
        && refs == if env.snapshot.Some? then old(refs)[refName := env.snapshot.value] else old(refs)
      ensures Transacted(env, preRunDirty, old(file).Some? && !vetoed, old(index), old(commits))
      ensures refs == if old(file).Some? && !vetoed && Preserves(env, preRunDirty)
        then RefsAfter(env, old(refs)) else old(refs)
      ensures old(file).Some? && !IsDone(old(file).value) ==>
        (!closed && IsDone(file.value) <==> !vetoed && HollowDone(env, preRunDirty))
    {
      hide Workspace.Done, Workspace.Stamped, Workspace.Proceeds, Workspace.Window, Workspace.IndexAfter,
        Workspace.HollowDone, IsDone, HasStatus, SameBut;
      raised := false;
      if file.None? { return true, false; }
      if vetoed { return false, false; }
      ClosingKeeps(env, preRunDirty, file.value);
      DoneMeans(env, file.value);
      if preRunDirty.None? && Proceeds(env, preRunDirty) { NothingElse(env, preRunDirty); }
      var ok, window, dirty := Preflight(env, preRunDirty);
      if !ok {
        raised := AbandonAndStamp(env, dirty, None, None);
        return false, false;
      }
      if env.trouble.AtRead? { return false, true; }
      var prior := file.value;
      var content := Done(env, prior);
      if env.trouble.AtWrite? {
        file := Some(ValueOr(env.trouble.torn, prior));
        return false, true;
      }
      file := Some(content);
      if env.trouble.AfterWrite? { return false, true; }
      closed, raised := CommitOrRestore(env, window, prior, None);
    }

    /** `complete_issue_lifecycle`: like closing, with a session-log line in what is committed;
        a refusal leaves the issue `in_progress` for requeue. */
    method CompleteIssueLifecycle(env: Env, preRunDirty: Option<set<string>>, log: string -> string)
      returns (done: bool, raised: bool)
      modifies this
      ensures old(file).None? ==> done && !raised && file.None?
      ensures old(file).Some? ==>
        && (done <==> Proceeds(env, preRunDirty) && !Escapes(env) && Lands(env))
        && (raised <==> Proceeds(env, preRunDirty) && Escapes(env))
      ensures old(file).Some? ==>
        var content := Done(env, old(file).value);
        var left := FileAfter(env, preRunDirty, old(file).value, content, Logged(content, log), Some(REQUEUED));
        file == Some(left)
      ensures old(file).Some? && done ==>
        && file.value.fields == old(file).value.fields["status" := "done"]["completed_at" := env.now]
        && file.value.body == log(if hasResolution(old(file).value.body) then old(file).value.body
                                  else old(file).value.body + env.resolution)
      ensures old(file).Some? && done && env.commit.Committed? && preRunDirty.None? ==>
        commits == old(commits) + [old(index) + {issuePath}]
      ensures old(file).Some? && !done && !raised ==>
        && SameBut(file.value, old(file).value, STAMPS + {STATUS})
        && file.value.body == old(file).value.body
        && refs == (if env.snapshot.Some? then old(refs)[refName := env.snapshot.value] else old(refs))
        && (env.stampFails || HasStatus(file.value, REQUEUED))
      ensures Transacted(env, preRunDirty, old(file).Some?, old(index), old(commits))
      ensures refs == if old(file).Some? && Preserves(env, preRunDirty) then RefsAfter(env, old(refs)) else old(refs)
      ensures old(file).Some? && !IsDone(old(file).value) ==>
        (!done && IsDone(file.value) <==> HollowDone(env, preRunDirty))
    {
      hide Workspace.Done, Workspace.Stamped, Workspace.Proceeds, Workspace.Window, Workspace.IndexAfter,
        Workspace.HollowDone, IsDone, HasStatus, SameBut;
      raised := false;
      if file.None? { return true, false; }
      CompletingKeeps(env, preRunDirty, file.value, log);
      DoneMeans(env, file.value);
      if preRunDirty.None? && Proceeds(env, preRunDirty) { NothingElse(env, preRunDirty); }
      var ok, window, dirty := Preflight(env, preRunDirty);
      if !ok {
        raised := AbandonAndStamp(env, dirty, None, Some(REQUEUED));
        return false, false;
      }
      if env.trouble.AtRead? { return false, true; }
      var prior := file.value;
      var content := Done(env, prior);
      if env.trouble.AtWrite? {
        file := Some(ValueOr(env.trouble.torn, prior));
        return false, true;
      }
      file := Some(content);
      if env.trouble.AfterWrite? { return false, true; }
      file := Some(Logged(file.value, log));
      done, raised := CommitOrRestore(env, window, prior, Some(REQUEUED));
    }

    function Logged(d: Doc, log: string -> string): Doc {
      d.(body := log(d.body))
    }

    // Without an exception anywhere a call that proceeds succeeds exactly when git adds, and
    // commits or has nothing to commit.
    lemma Untroubled(env: Env, preRunDirty: Option<set<string>>)
      requires env.trouble.NoTrouble?
      ensures !Escapes(env)
      ensures Succeeds(env, preRunDirty) <==>
        Proceeds(env, preRunDirty) && env.add.Added? && (env.commit.Committed? || env.commit.NothingToCommit?)
    {}

    lemma DoneMeans(env: Env, d: Doc)
      ensures Done(env, d).fields == d.fields["status" := "done"]["completed_at" := env.now]
      ensures Done(env, d).body == if hasResolution(d.body) then d.body else d.body + env.resolution
    {}

    // Without a snapshot a call that proceeds has no run window.
    lemma NothingElse(env: Env, preRunDirty: Option<set<string>>)
      requires preRunDirty.None? && Proceeds(env, preRunDirty)
      ensures Window(env, preRunDirty) == {} && {issuePath} + Window(env, preRunDirty) == {issuePath}
    {}

    // When a call is refused before anything is written, on git's own status output: without
    // a snapshot, for any dirty path that is neither noise nor the issue file; and whenever
    // git does not answer.
    lemma RefusedIff(env: Env, preRunDirty: Option<set<string>>, entries: seq<Status>)
      requires forall i | 0 <= i < |entries| :: Printable(entries[i])
      ensures env.status == StatusOk(Print(entries)) ==>
        (!Proceeds(env, preRunDirty) <==>
          preRunDirty.None? && exists p :: p in Paths(entries) && !isIssueFile(p) && !noise(p))
      ensures env.status.StatusTimeout? || env.status.StatusFailed? ==> !Proceeds(env, preRunDirty)
    {
      hide Parse, Print, Paths;
      ParsePrint(entries);
      WindowEmpty(Paths(entries));
    }

    // What a stamp writes: the number of paths left behind and, after a snapshot, where it is.
    lemma StampMeans(env: Env, d: Doc, dirty: nat, status: Option<string>)
      ensures var s := Stamped(env, d, dirty, status);
        && s.body == d.body
        && "uncommitted_paths" in s.fields && s.fields["uncommitted_paths"] == Decimal(dirty)
        && (env.snapshot.Some? ==>
             && "abandoned_ref" in s.fields && s.fields["abandoned_ref"] == refName
             && "abandoned_sha" in s.fields && s.fields["abandoned_sha"] == env.snapshot.value)
        && (status.Some? ==> "status" in s.fields && s.fields["status"] == status.value)
        && forall f | f !in {"uncommitted_paths", "abandoned_ref", "abandoned_sha", "status"} ::
             (f in s.fields <==> f in d.fields) && (f in d.fields ==> s.fields[f] == d.fields[f])
    {}

    lemma StampStatus(env: Env, d: Doc, dirty: nat, status: Option<string>)
      ensures var stamped := Stamped(env, d, dirty, status);
        && SameBut(stamped, d, STAMPS + (if status.Some? then {STATUS} else {}))
        && (if status.Some? then HasStatus(stamped, status.value)
            else forall word :: HasStatus(stamped, word) <==> HasStatus(d, word))
    {}

    // What the two lemmas above say of a closing and of a completing call.
    lemma ClosingKeeps(env: Env, preRunDirty: Option<set<string>>, prior: Doc)
      ensures var content := Done(env, prior);
        var left := FileAfter(env, preRunDirty, prior, content, content, None);
        && (!(Proceeds(env, preRunDirty) && (Escapes(env) || Lands(env))) ==> SameBut(left, prior, STAMPS))
        && (!IsDone(prior) ==>
             (!Succeeds(env, preRunDirty) && IsDone(left) <==> HollowDone(env, preRunDirty)))
    {
      hide Workspace.Proceeds, Workspace.Escapes, Workspace.Lands, Workspace.FileAfter, Workspace.HollowDone,
        SameBut, Workspace.Succeeds;
      var content := Done(env, prior);
      if !(Proceeds(env, preRunDirty) && (Escapes(env) || Lands(env))) {
        RefusalKeeps(env, preRunDirty, prior, content, content, None);
        assert STAMPS + {} == STAMPS;
      }
      if !IsDone(prior) { HollowDoneIff(env, preRunDirty, prior, content, content, None); }
    }

    lemma CompletingKeeps(env: Env, preRunDirty: Option<set<string>>, prior: Doc, log: string -> string)
      ensures var content := Done(env, prior);
        var left := FileAfter(env, preRunDirty, prior, content, Logged(content, log), Some(REQUEUED));
        && (!(Proceeds(env, preRunDirty) && (Escapes(env) || Lands(env))) ==>
             && SameBut(left, prior, STAMPS + {STATUS}) && left.body == prior.body
             && (env.stampFails || HasStatus(left, REQUEUED)))
        && (!IsDone(prior) ==>
             (!Succeeds(env, preRunDirty) && IsDone(left) <==> HollowDone(env, preRunDirty)))
    {
      hide Workspace.Proceeds, Workspace.Escapes, Workspace.Lands, Workspace.FileAfter, Workspace.HollowDone,
        Workspace.Succeeds;
      var content := Done(env, prior);
      var logged := Logged(content, log);
      if !(Proceeds(env, preRunDirty) && (Escapes(env) || Lands(env))) {
        RefusalKeeps(env, preRunDirty, prior, content, logged, Some(REQUEUED));
      }
      if !IsDone(prior) { HollowDoneIff(env, preRunDirty, prior, content, logged, Some(REQUEUED)); }
    }

    // The paths staged besides the issue file, read back from git's own status output.
    lemma WindowExact(env: Env, preRunDirty: Option<set<string>>, entries: seq<Status>, p: string)
      requires forall i | 0 <= i < |entries| :: Printable(entries[i])
      requires env.status == StatusOk(Print(entries))
      ensures p in Window(env, preRunDirty) <==>
        && p in Paths(entries) && !isIssueFile(p) && !noise(p)
        && (preRunDirty.Some? ==> p !in preRunDirty.value)
    {
      hide Parse, Print, Paths;
      ParsePrint(entries);
    }
  }

  // `git reset` raises behind a rejected commit: the completion fails, nothing is committed,
  // and the issue file says `done`.
  method HollowDoneExample() returns (done: bool, left: Option<Doc>, commits: seq<set<string>>)
    ensures !done && commits == []
    ensures left.Some? && IsDone(left.value)
  {
    var env := Env(StatusOk(""), Added, {}, CommitFailed, {}, None, false, AtReset, "now", "## Resolution");
    var prior := Doc(map[], "");
    var ws := new Workspace("issue.md", "ref", p => false, p => false, text => false, Some(prior));
    var raised;
    done, raised := ws.CompleteIssueLifecycle(env, Some({}), body => body);
    return done, ws.file, ws.commits;
  }
}
