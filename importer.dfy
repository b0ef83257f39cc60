/**
 * The importer script (tools/importer/importer.py) driving a local git
 * repository. Git itself is modelled by the class `Repo`: its branches, the
 * commit messages on each branch, whether the working tree differs from the
 * head commit, and the cherry-picks made so far. Each git command the script
 * runs is a method of `Repo` that returns the command's exit status and
 * standard output; the script's own steps are the methods after it.
 */
module Importer {
  import opened GitText

  /** Exit status and standard output of one shell command. */
  datatype CmdResult = CmdResult(code: int, stdout: string)

  /** What `run_cmd_with_output` hands back, or the process exit it causes. */
  datatype Outcome = Returned(code: int, output: string) | Exited(status: int)

  /**
   * `run_cmd_with_output`: a command that succeeds yields status 0 and its
   * output; a failing one yields its status and an empty output, or ends the
   * process with status 1 when failure is fatal.
   */
  function RunCmdWithOutput(raw: CmdResult, exitOnFailure: bool): (r: Outcome)
    ensures r.Exited? <==> raw.code != 0 && exitOnFailure
    ensures r.Exited? ==> r.status == 1
    ensures r.Returned? ==> r.code == raw.code && (r.code == 0 <==> raw.code == 0)
    ensures r.Returned? && raw.code != 0 ==> r.output == []
    ensures r.Returned? && raw.code == 0 ==> r.output == raw.stdout
  {
    if raw.code == 0 then Returned(0, raw.stdout)
    else if exitOnFailure then Exited(1)
    else Returned(raw.code, [])
  }

  /** A step of the script that either produced a value or ended the process. */
  datatype Step<T> = Next(value: T) | Exit(status: int)

  class Repo {
    /** Local branches, in the order `git branch` lists them. */
    var branches: seq<string>
    /** The checked-out branch. */
    var current: string
    /** Commit messages reachable from each branch, oldest first. */
    var history: map<string, seq<string>>
    /** The working tree holds changes that are not committed. */
    var dirty: bool
    /** Every successful `git cherry-pick -x`, in order. */
    var picked: seq<string>
    /** The commits that can be cherry-picked, with their messages. */
    const origins: map<string, string>
    /** Commits whose cherry-pick stops on a conflict. */
    const conflicts: set<string>

    ghost predicate Valid()
      reads this
    {
      current in branches
      && (forall b :: b in history <==> b in branches)
      && AllFree(branches, '\n')
    }

    constructor (trunk: string, log: seq<string>, origins: map<string, string>, conflicts: set<string>)
      requires Free(trunk, '\n')
      ensures Valid()
      ensures branches == [trunk] && current == trunk && history == map[trunk := log]
      ensures !dirty && picked == []
      ensures this.origins == origins && this.conflicts == conflicts
    {
      branches := [trunk];
      current := trunk;
      history := map[trunk := log];
      dirty := false;
      picked := [];
      this.origins := origins;
      this.conflicts := conflicts;
    }

    /** A commit can be cherry-picked without stopping. */
    predicate Pickable(p: string)
    {
      p in origins && p !in conflicts
    }

    /** The commit message `git cherry-pick -x` records for `p`. */
    function PickedMessage(p: string): string
      requires p in origins
    {
      PickMessage(origins[p], p)
    }

    function PickedMessages(ps: seq<string>): (ms: seq<string>)
      requires forall p :: p in ps ==> p in origins
      ensures |ms| == |ps|
      ensures forall k :: 0 <= k < |ps| ==> ms[k] == PickedMessage(ps[k])
    {
      seq(|ps|, k requires 0 <= k < |ps| => PickedMessage(ps[k]))
    }

    /** One more pick appends one more message to the branch's log. */
    lemma PickedSnoc(h0: map<string, seq<string>>, cur: string, log0: seq<string>, ps: seq<string>, p: string)
      requires (forall q :: q in ps ==> q in origins) && p in origins
      ensures h0[cur := log0 + PickedMessages(ps)][cur := h0[cur := log0 + PickedMessages(ps)][cur] + [PickedMessage(p)]]
              == h0[cur := log0 + PickedMessages(ps + [p])]
    {
      assert PickedMessages(ps + [p]) == PickedMessages(ps) + [PickedMessage(p)];
      assert log0 + PickedMessages(ps + [p]) == log0 + PickedMessages(ps) + [PickedMessage(p)];
    }

    /** The newest message after replaying `ps` on a log is that of the last pick. */
    lemma LastPicked(log0: seq<string>, ps: seq<string>)
      requires ps != [] && forall q :: q in ps ==> q in origins
      ensures var log := log0 + PickedMessages(ps);
              log[|log| - 1] == PickMessage(origins[ps[|ps| - 1]], ps[|ps| - 1])
    {
      assert ps[|ps| - 1] in ps;
    }

    /** `git branch` */
    method ListBranches() returns (raw: CmdResult)
      requires Valid()
      ensures raw == CmdResult(0, BranchListing(branches, current))
    {
      raw := CmdResult(0, BranchListing(branches, current));
    }

    /** `git checkout name` */
    method Checkout(name: string) returns (raw: CmdResult)
      requires Valid()
      modifies this
      ensures Valid()
      ensures raw.code == 0 <==> name in branches
      ensures current == if name in branches then name else old(current)
      ensures branches == old(branches) && history == old(history)
      ensures dirty == old(dirty) && picked == old(picked)
    {
      if name in branches {
        current := name;
        raw := CmdResult(0, []);
      } else {
        raw := CmdResult(1, []);
      }
    }

    /** `git checkout -b name`: a new branch at the current head, working tree kept. */
    method CheckoutNewBranch(name: string) returns (raw: CmdResult)
      requires Valid()
      modifies this
      ensures Valid()
      ensures raw.code == 0 <==> name !in old(branches) && name != [] && Free(name, '\n')
      ensures raw.code == 0 ==> branches == old(branches) + [name] && current == name
                                && history == old(history)[name := old(history[current])]
      ensures raw.code != 0 ==> branches == old(branches) && current == old(current) && history == old(history)
      ensures dirty == old(dirty) && picked == old(picked)
    {
      if name in branches || name == [] || !Free(name, '\n') {
        raw := CmdResult(128, []);
      } else {
        branches := branches + [name];
        history := history[name := history[current]];
        current := name;
        raw := CmdResult(0, []);
      }
    }

    /** `git add -A`: staging is not tracked apart from the working tree. */
    method AddAll() returns (raw: CmdResult)
      ensures raw.code == 0
    {
      raw := CmdResult(0, []);
    }

    /**
     * Removing and copying the configured vendor files: `changes` says whether
     * the copy leaves the working tree different from the head commit.
     */
    method SyncFiles(changes: bool)
      modifies this
      ensures dirty == (old(dirty) || changes)
      ensures branches == old(branches) && current == old(current)
      ensures history == old(history) && picked == old(picked)
    {
      dirty := dirty || changes;
    }

    /** `git commit -m msg`: fails when there is nothing to commit. */
    method Commit(msg: string) returns (raw: CmdResult)
      requires Valid()
      modifies this
      ensures Valid()
      ensures raw.code == 0 <==> old(dirty)
      ensures history == if old(dirty) then old(history)[current := old(history[current]) + [msg]] else old(history)
      ensures !dirty
      ensures branches == old(branches) && current == old(current) && picked == old(picked)
    {
      if dirty {
        history := history[current := history[current] + [msg]];
        dirty := false;
        raw := CmdResult(0, []);
      } else {
        raw := CmdResult(1, []);
      }
    }

    /** `git log -n 1`: the head commit; fails on a branch without commits. */
    method LogHead() returns (raw: CmdResult)
      requires Valid()
      ensures raw.code == 0 <==> history[current] != []
      ensures raw.code == 0 ==> raw.stdout == LogOutput(history[current][|history[current]| - 1])
    {
      var log := history[current];
      if log == [] {
        raw := CmdResult(128, []);
      } else {
        raw := CmdResult(0, LogOutput(log[|log| - 1]));
      }
    }

    /** `git cherry-pick -x p`: a conflict leaves the working tree dirty. */
    method CherryPick(p: string) returns (raw: CmdResult)
      requires Valid()
      modifies this
      ensures Valid()
      ensures raw.code == 0 <==> Pickable(p)
      ensures Pickable(p) ==>
                history == old(history)[current := old(history[current]) + [PickedMessage(p)]]
                && picked == old(picked) + [p] && dirty == old(dirty)
      ensures !Pickable(p) ==>
                history == old(history) && picked == old(picked)
                && dirty == (old(dirty) || p in conflicts)
      ensures branches == old(branches) && current == old(current)
    {
      if p in origins && p !in conflicts {
        history := history[current := history[current] + [PickedMessage(p)]];
        picked := picked + [p];
        raw := CmdResult(0, []);
      } else {
        dirty := dirty || p in conflicts;
        raw := CmdResult(1, []);
      }
    }
  }

  // ---------------------------------------------------------------------------
  // The script's helpers over the repository
  // ---------------------------------------------------------------------------

  /** `branch_exists`, with the listing matched line by line. */
  method BranchExistsIn(repo: Repo, name: string) returns (b: bool)
    requires repo.Valid()
    ensures b <==> name in repo.branches
  {
    var raw := repo.ListBranches();
    var out := RunCmdWithOutput(raw, false);
    BranchExistsExactly(name, repo.branches, repo.current);
    b := BranchExists(name, out.output);
  }

  /** `branch_checkout`: a failing checkout is ignored. */
  method BranchCheckout(repo: Repo, name: string)
    requires repo.Valid()
    modifies repo
    ensures repo.Valid()
    ensures repo.current == if name in repo.branches then name else old(repo.current)
    ensures repo.branches == old(repo.branches) && repo.history == old(repo.history)
    ensures repo.dirty == old(repo.dirty) && repo.picked == old(repo.picked)
  {
    var _ := repo.Checkout(name);
  }

  /** The cursor recorded at the head of a branch whose commits are `log`. */
  function LogCursor(log: seq<string>): Step<Option<string>> {
    if log == [] then Exit(1) else Next(HeadCursor(log[|log| - 1]))
  }

  /** `get_last_cherry_pick_sha`: checks the branch out, then reads its head. */
  method GetLastCherryPickSha(repo: Repo, branch: string) returns (r: Step<Option<string>>)
    requires repo.Valid()
    modifies repo
    ensures repo.Valid()
    ensures repo.current == if branch in repo.branches then branch else old(repo.current)
    ensures repo.branches == old(repo.branches) && repo.history == old(repo.history)
    ensures repo.dirty == old(repo.dirty) && repo.picked == old(repo.picked)
    ensures r == LogCursor(repo.history[repo.current])
  {
    var _ := repo.Checkout(branch);
    var raw := repo.LogHead();
    var out := RunCmdWithOutput(raw, true);
    if out.Exited? {
      return Exit(out.status);
    }
    var sha := ExtractCursor(out.output);
    return Next(sha);
  }

  // ---------------------------------------------------------------------------
  // Replaying the local patches (importer.py:281-297)
  // ---------------------------------------------------------------------------

  /** The longest prefix of `plan` whose cherry-picks all go through. */
  function PickablePrefix(repo: Repo, plan: seq<string>): (ok: seq<string>)
    ensures ok <= plan
    ensures forall p :: p in ok ==> repo.Pickable(p)
    ensures ok != plan ==> !repo.Pickable(plan[|ok|])
    decreases |plan|
  {
    if plan == [] || !repo.Pickable(plan[0]) then []
    else [plan[0]] + PickablePrefix(repo, plan[1..])
  }

  lemma PickablePrefixOf(repo: Repo, done: seq<string>, x: string, rest: seq<string>)
    requires forall p :: p in done ==> repo.Pickable(p)
    ensures repo.Pickable(x) ==> PickablePrefix(repo, done + [x]) == done + [x]
    ensures !repo.Pickable(x) ==> PickablePrefix(repo, done + [x] + rest) == done
  {
    if done != [] {
      PickablePrefixOf(repo, done[1..], x, rest);
      assert (done + [x])[1..] == done[1..] + [x];
      assert (done + [x] + rest)[1..] == done[1..] + [x] + rest;
    }
  }

  /** Extending the patch list can only extend what the resume loop picks. */
  lemma {:induction false} ResumePicksGrow(xs: seq<string>, ys: seq<string>, c: string)
    ensures ResumePicks(xs, c) <= ResumePicks(xs + ys, c)
    decreases |ys|
  {
    if ys != [] {
      var init := ys[..|ys| - 1];
      ResumePicksGrow(xs, init, c);
      assert xs + ys == (xs + init) + [ys[|ys| - 1]];
      ResumeSnoc(xs + init, ys[|ys| - 1], c);
    } else {
      assert xs + ys == xs;
    }
  }

  /**
   * The state a replay of `plan` leaves behind, from the branch's log `log0`:
   * the longest prefix of `plan` that goes through is picked, its messages are
   * appended to the current branch, and a stop on a conflict dirties the tree.
   */
  ghost predicate ReplayedFrom(repo: Repo, plan: seq<string>, status: int,
                               picked0: seq<string>, history0: map<string, seq<string>>, dirty0: bool)
    reads repo
  {
    var ok := PickablePrefix(repo, plan);
    && repo.current in history0
    && repo.picked == picked0 + ok
    && repo.history == history0[repo.current := history0[repo.current] + repo.PickedMessages(ok)]
    && (status == 0 <==> ok == plan)
    && (status == 0 || status == 1)
    && repo.dirty == (dirty0 || (ok != plan && plan[|ok|] in repo.conflicts))
  }

  /** The first loop: every patch, in order (importer.py:281-286). */
  method PickAll(repo: Repo, patches: seq<string>) returns (status: int)
    requires repo.Valid()
    modifies repo
    ensures repo.Valid()
    ensures ReplayedFrom(repo, patches, status, old(repo.picked), old(repo.history), old(repo.dirty))
    ensures repo.branches == old(repo.branches) && repo.current == old(repo.current)
  {
    ghost var log0 := repo.history[repo.current];
    assert repo.PickedMessages(patches[..0]) == [] && log0 + [] == log0;
    for i := 0 to |patches|
      invariant repo.Valid()
      invariant forall p :: p in patches[..i] ==> repo.Pickable(p)
      invariant repo.picked == old(repo.picked) + patches[..i]
      invariant repo.history == old(repo.history)[repo.current := log0 + repo.PickedMessages(patches[..i])]
      invariant repo.branches == old(repo.branches) && repo.current == old(repo.current)
      invariant repo.dirty == old(repo.dirty)
    {
      var raw := repo.CherryPick(patches[i]);
      var out := RunCmdWithOutput(raw, true);
      assert patches[..i + 1] == patches[..i] + [patches[i]];
      if out.Exited? {
        PickablePrefixOf(repo, patches[..i], patches[i], patches[i + 1..]);
        assert patches == patches[..i] + [patches[i]] + patches[i + 1..];
        return out.status;
      }
      PickablePrefixOf(repo, patches[..i], patches[i], []);
      repo.PickedSnoc(old(repo.history), repo.current, log0, patches[..i], patches[i]);
    }
    assert patches[..|patches|] == patches;
    AllPickable(repo, patches);
    return 0;
  }

  /** The second loop: the patches after the cursor, via the `found` flag (importer.py:289-297). */
  method PickAfter(repo: Repo, patches: seq<string>, last: string) returns (status: int)
    requires repo.Valid()
    modifies repo
    ensures repo.Valid()
    ensures ReplayedFrom(repo, ResumePicks(patches, last), status, old(repo.picked), old(repo.history), old(repo.dirty))
    ensures repo.branches == old(repo.branches) && repo.current == old(repo.current)
  {
    ghost var plan := ResumePicks(patches, last);
    ghost var log0 := repo.history[repo.current];
    ghost var done: seq<string> := [];
    assert repo.PickedMessages(done) == [] && log0 + [] == log0;
    var found := false;
    for i := 0 to |patches|
      invariant repo.Valid()
      invariant found <==> last in patches[..i]
      invariant done == ResumePicks(patches[..i], last) && (forall p :: p in done ==> repo.Pickable(p))
      invariant repo.picked == old(repo.picked) + done
      invariant repo.history == old(repo.history)[repo.current := log0 + repo.PickedMessages(done)]
      invariant repo.branches == old(repo.branches) && repo.current == old(repo.current)
      invariant repo.dirty == old(repo.dirty)
    {
      var sha := patches[i];
      assert patches[..i + 1] == patches[..i] + [sha];
      ResumeSnoc(patches[..i], sha, last);
      if sha == last {
        found := true;
        continue;
      }
      if found {
        var raw := repo.CherryPick(sha);
        var out := RunCmdWithOutput(raw, true);
        if out.Exited? {
          ResumeStopsAt(repo, patches, i, last, done);
          return out.status;
        }
        repo.PickedSnoc(old(repo.history), repo.current, log0, done, sha);
        done := done + [sha];
      }
    }
    assert patches[..|patches|] == patches;
    AllPickable(repo, plan);
    return 0;
  }

  /** A pick that fails in the resume loop is where the pickable prefix of its plan ends. */
  lemma ResumeStopsAt(repo: Repo, patches: seq<string>, i: nat, last: string, done: seq<string>)
    requires i < |patches|
    requires ResumePicks(patches[..i + 1], last) == done + [patches[i]]
    requires forall p :: p in done ==> repo.Pickable(p)
    requires !repo.Pickable(patches[i])
    ensures var plan := ResumePicks(patches, last);
            PickablePrefix(repo, plan) == done && |done| < |plan| && plan[|done|] == patches[i]
  {
    var plan := ResumePicks(patches, last);
    ResumePicksGrow(patches[..i + 1], patches[i + 1..], last);
    assert patches[..i + 1] + patches[i + 1..] == patches;
    assert plan == done + [patches[i]] + plan[|done| + 1..];
    PickablePrefixOf(repo, done, patches[i], plan[|done| + 1..]);
  }

  /**
   * The replay step: with no cursor every patch is cherry-picked in order;
   * with one, the patches after its first occurrence are. The first pick that
   * fails ends the process with status 1.
   */
  method Replay(repo: Repo, patches: seq<string>, cursor: Option<string>) returns (status: int)
    requires repo.Valid()
    modifies repo
    ensures repo.Valid()
    ensures ReplayedFrom(repo, ReplayPlan(patches, cursor), status, old(repo.picked), old(repo.history), old(repo.dirty))
    ensures repo.branches == old(repo.branches) && repo.current == old(repo.current)
  {
    if cursor.None? || cursor.value == [] {
      status := PickAll(repo, patches);
    } else {
      status := PickAfter(repo, patches, cursor.value);
    }
  }

  lemma {:induction false} AllPickable(repo: Repo, plan: seq<string>)
    requires forall p :: p in plan ==> repo.Pickable(p)
    ensures PickablePrefix(repo, plan) == plan
    decreases |plan|
  {
    if plan != [] {
      AllPickable(repo, plan[1..]);
    }
  }

  // ---------------------------------------------------------------------------
  // The script's main flow (importer.py:201-297)
  // ---------------------------------------------------------------------------

  /**
   * One run of the importer against `repo`. `vendorHead` is the result of
   * `git log --pretty=format:%h -n 1` in the vendor repository, `syncChanges`
   * whether copying the configured files changes the working tree,
   * `nothingListed` whether the configuration lists no file, no folder and
   * nothing to remove, and `patches` the configured `commit_sha` list. The
   * result is the exit status.
   */
  method Import(repo: Repo, repoName: string, vendorHead: CmdResult, noGit: bool,
                syncChanges: bool, nothingListed: bool, patches: seq<string>) returns (status: int)
    requires repo.Valid()
    modifies repo
    ensures repo.Valid()
    ensures status == 0 || status == 1
    // no revision of the vendor repository: nothing happens
    ensures vendorHead.code != 0 || vendorHead.stdout == [] ==>
              status == 1 && unchanged(repo)
    // files only
    ensures vendorHead.code == 0 && vendorHead.stdout != [] && noGit ==>
              && status == 0 && repo.dirty == (old(repo.dirty) || syncChanges)
              && repo.branches == old(repo.branches) && repo.current == old(repo.current)
              && repo.history == old(repo.history) && repo.picked == old(repo.picked)
    // a new branch that cannot be made, or an update with nothing to commit
    ensures vendorHead.code == 0 && vendorHead.stdout != [] && !noGit &&
            BranchName(repoName, vendorHead.stdout) !in old(repo.branches) &&
            (!Free(BranchName(repoName, vendorHead.stdout), '\n') || !(old(repo.dirty) || syncChanges)) ==>
              status == 1 && repo.picked == old(repo.picked)
    // the feature branch exists: it is checked out and the patches are replayed on it
    ensures vendorHead.code == 0 && vendorHead.stdout != [] && !noGit &&
            BranchName(repoName, vendorHead.stdout) in old(repo.branches) ==>
              var b := BranchName(repoName, vendorHead.stdout);
              var base := old(repo.history)[b];
              && repo.current == b && repo.branches == old(repo.branches)
              && (base == [] ==> status == 1 && repo.history == old(repo.history) && repo.picked == old(repo.picked))
              && (base != [] ==>
                    ReplayedFrom(repo, ReplayPlan(patches, HeadCursor(base[|base| - 1])), status,
                                 old(repo.picked), old(repo.history), old(repo.dirty)))
    // the feature branch is made and committed from the synced files, then the same;
    // with nothing listed, logging the last copied path fails after the commit
    ensures vendorHead.code == 0 && vendorHead.stdout != [] && !noGit &&
            BranchName(repoName, vendorHead.stdout) !in old(repo.branches) &&
            Free(BranchName(repoName, vendorHead.stdout), '\n') && (old(repo.dirty) || syncChanges) ==>
              var b := BranchName(repoName, vendorHead.stdout);
              var base := old(repo.history)[old(repo.current)] + [CommitMessage(repoName, vendorHead.stdout)];
              && repo.current == b && repo.branches == old(repo.branches) + [b]
              && (nothingListed ==>
                    && status == 1 && repo.history == old(repo.history)[b := base]
                    && repo.picked == old(repo.picked) && !repo.dirty)
              && (!nothingListed ==>
                    ReplayedFrom(repo, ReplayPlan(patches, HeadCursor(base[|base| - 1])), status,
                                 old(repo.picked), old(repo.history)[b := base], false))
  {
    var head := RunCmdWithOutput(vendorHead, true);
    if head.Exited? {
      return head.status;
    }
    var sha := head.output;
    if sha == [] {
      return 1;
    }
    var branch := BranchName(repoName, sha);
    var message := CommitMessage(repoName, sha);
    var present := false;
    if !noGit {
      present := BranchExistsIn(repo, branch);
    }
    if noGit || !present {
      repo.SyncFiles(syncChanges);
      if noGit {
        return 0;
      }
      var made := CreateFeatureBranch(repo, branch, message);
      if !made || nothingListed {
        return 1;
      }
    }
    status := ResumeOn(repo, branch, patches);
  }

  /** Creating and committing the feature branch after a sync (importer.py:266-272). */
  method CreateFeatureBranch(repo: Repo, branch: string, message: string) returns (made: bool)
    requires repo.Valid() && branch !in repo.branches
    modifies repo
    ensures repo.Valid()
    ensures made <==> Free(branch, '\n') && branch != [] && old(repo.dirty)
    ensures made ==>
              && repo.branches == old(repo.branches) + [branch] && repo.current == branch
              && repo.history == old(repo.history)[branch := old(repo.history[repo.current]) + [message]]
              && !repo.dirty
    ensures repo.picked == old(repo.picked)
  {
    var created := repo.CheckoutNewBranch(branch);
    var out := RunCmdWithOutput(created, true);
    if out.Exited? {
      return false;
    }
    var added := repo.AddAll();
    out := RunCmdWithOutput(added, true);
    var committed := repo.Commit(message);
    out := RunCmdWithOutput(committed, true);
    return !out.Exited?;
  }

  /** Checking the feature branch out, reading its cursor and replaying (importer.py:278-297). */
  method ResumeOn(repo: Repo, branch: string, patches: seq<string>) returns (status: int)
    requires repo.Valid() && branch in repo.branches
    modifies repo
    ensures repo.Valid()
    ensures repo.current == branch && repo.branches == old(repo.branches)
    ensures old(repo.history[branch]) == [] ==>
              status == 1 && repo.history == old(repo.history) && repo.picked == old(repo.picked)
    ensures old(repo.history[branch]) != [] ==>
              ReplayedFrom(repo, ReplayPlan(patches, HeadCursor(old(repo.history[branch])[|old(repo.history[branch])| - 1])),
                           status, old(repo.picked), old(repo.history), old(repo.dirty))
  {
    BranchCheckout(repo, branch);
    var cursor := GetLastCherryPickSha(repo, branch);
    if cursor.Exit? {
      return cursor.status;
    }
    status := Replay(repo, patches, cursor.value);
  }

  /**
   * Running the importer a second time for the same vendor revision, after a
   * first run that succeeded, changes nothing: the feature branch exists, so
   * nothing is synced or committed, and its cursor names the last patch, so
   * nothing is picked.
   */
  method ImportTwice(repo: Repo, repoName: string, vendorHead: CmdResult, syncChanges: bool,
                     nothingListed: bool, patches: seq<string>)
    returns (first: int, second: int, ghost afterFirst: seq<string>,
             ghost historyAfterFirst: map<string, seq<string>>, ghost dirtyAfterFirst: bool)
    requires repo.Valid()
    requires forall j, k :: 0 <= j < k < |patches| ==> patches[j] != patches[k]
    requires forall k :: 0 <= k < |patches| ==> patches[k] != [] && Free(patches[k], ' ') && Free(patches[k], '\n')
    requires forall p :: p in repo.origins ==> Unmarked(repo.origins[p])
    modifies repo
    ensures first == 0 ==>
              && second == 0 && repo.picked == afterFirst
              && repo.history == historyAfterFirst && repo.dirty == dirtyAfterFirst
              && repo.current == BranchName(repoName, vendorHead.stdout)
  {
    ghost var b := BranchName(repoName, vendorHead.stdout);
    ghost var base1: seq<string> := [];
    if b in repo.branches {
      base1 := repo.history[b];
    } else {
      base1 := repo.history[repo.current] + [CommitMessage(repoName, vendorHead.stdout)];
    }
    first := Import(repo, repoName, vendorHead, false, syncChanges, nothingListed, patches);
    afterFirst, historyAfterFirst, dirtyAfterFirst := repo.picked, repo.history, repo.dirty;
    ghost var log := [];
    if first == 0 {
      if b in old(repo.branches) {
        ReplayedAll(repo, ReplayPlan(patches, HeadCursor(base1[|base1| - 1])), old(repo.picked), old(repo.history), old(repo.dirty));
      } else {
        ReplayedAll(repo, ReplayPlan(patches, HeadCursor(base1[|base1| - 1])), old(repo.picked), old(repo.history)[b := base1], false);
      }
      log := repo.history[b];
      RerunPlansNothing(repo, patches, base1, log);
    }
    second := Import(repo, repoName, vendorHead, false, syncChanges, nothingListed, patches);
    if first == 0 {
      ReplayedNothing(repo, ReplayPlan(patches, HeadCursor(log[|log| - 1])), second, afterFirst,
                      historyAfterFirst, dirtyAfterFirst);
    }
  }

  /** A replay of an empty plan succeeds and changes nothing. */
  lemma ReplayedNothing(repo: Repo, plan: seq<string>, status: int, picked0: seq<string>,
                        history0: map<string, seq<string>>, dirty0: bool)
    requires plan == [] && ReplayedFrom(repo, plan, status, picked0, history0, dirty0)
    ensures status == 0 && repo.picked == picked0 && repo.history == history0 && repo.dirty == dirty0
  {
    assert repo.PickedMessages([]) == [];
    assert history0[repo.current] + [] == history0[repo.current];
  }

  /** A replay that ended with status 0 picked its whole plan onto the current branch. */
  lemma ReplayedAll(repo: Repo, plan: seq<string>, picked0: seq<string>,
                    history0: map<string, seq<string>>, dirty0: bool)
    requires ReplayedFrom(repo, plan, 0, picked0, history0, dirty0)
    ensures forall p :: p in plan ==> repo.Pickable(p)
    ensures repo.current in history0 && repo.history[repo.current] == history0[repo.current] + repo.PickedMessages(plan)
    ensures repo.picked == picked0 + plan
  {
  }

  /** After a replay that went through, reading the cursor again plans nothing. */
  lemma RerunPlansNothing(repo: Repo, patches: seq<string>, base1: seq<string>, log: seq<string>)
    requires base1 != []
    requires forall j, k :: 0 <= j < k < |patches| ==> patches[j] != patches[k]
    requires forall k :: 0 <= k < |patches| ==> patches[k] != [] && Free(patches[k], ' ') && Free(patches[k], '\n')
    requires forall p :: p in repo.origins ==> Unmarked(repo.origins[p])
    requires var plan1 := ReplayPlan(patches, HeadCursor(base1[|base1| - 1]));
             && (forall p :: p in plan1 ==> repo.Pickable(p))
             && log == base1 + repo.PickedMessages(plan1)
    ensures ReplayPlan(patches, HeadCursor(log[|log| - 1])) == []
  {
    var plan1 := ReplayPlan(patches, HeadCursor(base1[|base1| - 1]));
    if plan1 != [] {
      var lp := plan1[|plan1| - 1];
      assert lp in plan1;
      repo.LastPicked(base1, plan1);
      ReplayRerunPlansNothing(patches, HeadCursor(base1[|base1| - 1]), repo.origins[lp], log[|log| - 1]);
    } else {
      assert log == base1;
    }
  }
}
