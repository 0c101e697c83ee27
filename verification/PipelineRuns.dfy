/**
  What a run of a parsed pipeline comes to, position by position: where it stops, which processes it
  has started by then, and in which directory and with which input each of them runs.
 */
module PipelineRuns {
  import opened Lists
  import opened ShellGrammar
  import opened Shellcmd

  // ---- directories, as os.path.join forms them

  // An absolute directory replaces the one before it, a relative one is appended with one slash.
  lemma JoinPathLaws(path: string, dir: string, dir': string)
    ensures dir != "" && dir[0] == '/' ==> JoinPath(path, dir) == dir
    ensures JoinPath("", dir) == dir
    ensures path != "" && path[|path| - 1] != '/' && !(dir != "" && dir[0] == '/') ==>
              JoinPath(path, dir) == path + "/" + dir
    ensures path != "" && path[|path| - 1] == '/' && !(dir != "" && dir[0] == '/') ==> JoinPath(path, dir) == path + dir
    ensures JoinPath(JoinPath(path, dir), dir') == JoinPath(path, JoinPath(dir, dir'))
  {
    assert "" + dir == dir;
    JoinAssociates(path, dir, dir');
  }

  lemma JoinAssociates(path: string, dir: string, dir': string)
    ensures JoinPath(JoinPath(path, dir), dir') == JoinPath(path, JoinPath(dir, dir'))
  {
    if dir == "" {
      assert "" + dir' == dir' && path + "" == path && path + "/" + "" == path + "/";
    } else {
      assert path + (dir + dir') == path + dir + dir';
      assert path + "/" + (dir + dir') == path + "/" + dir + dir';
      assert path + (dir + "/" + dir') == path + dir + "/" + dir';
      assert path + "/" + (dir + "/" + dir') == path + "/" + dir + "/" + dir';
    }
  }

  // ---- positions in a pipeline

  // The directory at a position: all cds before it, one after the other.
  ghost function DirAt(p: seq<Node>, i: nat): string
    requires i <= |p|
  {
    if i == 0 then "."
    else if p[i - 1].Chdir? && p[i - 1].dir.Some? then JoinPath(DirAt(p, i - 1), p[i - 1].dir.value)
    else DirAt(p, i - 1)
  }

  // The nearest command before the position is followed by a pipe.
  ghost predicate PipedAt(p: seq<Node>, i: nat)
    requires i <= |p|
  {
    exists j :: 0 <= j < i - 1 && IsPipeTo(p, j, i)
  }

  ghost predicate IsPipeTo(p: seq<Node>, j: nat, i: nat)
    requires j + 1 < i <= |p|
  {
    p[j].Command? && p[j + 1].Pipe? && forall k :: j < k < i ==> !p[k].Command?
  }

  // The processes for the commands before a position.
  ghost function JobsUpTo(p: seq<Node>, i: nat): seq<Job>
    requires i <= |p|
  {
    if i == 0 then []
    else JobsUpTo(p, i - 1) + if p[i - 1].Command? then [Job(p[i - 1], DirAt(p, i - 1), PipedAt(p, i - 1))] else []
  }

  // The operator at a position looks at the process before it, and stops the run.
  ghost predicate Stops(p: seq<Node>, codes: nat -> int, i: nat)
    requires i < |p|
  {
    && i > 0 && p[i - 1].Command? && JobsUpTo(p, i) != []
    && ((p[i].And? && codes(|JobsUpTo(p, i)| - 1) != 0) || (p[i].Or? && codes(|JobsUpTo(p, i)| - 1) == 0))
  }

  ghost predicate Fails(p: seq<Node>, i: nat)
    requires i < |p|
  {
    p[i].Chdir? && (i == |p| - 1 || p[i].dir.None?)
  }

  // The run goes up to the first position at which it stops or fails, or to the end, and gives the
  // status of the process that was started last.
  ghost predicate RunsTo(p: seq<Node>, codes: nat -> int, e: nat, r: Outcome, started: seq<Job>)
    requires e <= |p|
  {
    && (forall i :: 0 <= i < e ==> !Stops(p, codes, i) && !Fails(p, i))
    && (e < |p| ==> Stops(p, codes, e) || Fails(p, e))
    && started == JobsUpTo(p, e)
    && (if e < |p| && Fails(p, e) then r == if e == |p| - 1 then IndexError else NoDirectory
        else started != [] && r == Returned(codes(|started| - 1)))
  }

  // ---- the run

  lemma WordsFrom(p: seq<Node>, i: nat)
    requires WellFormed(p) && i < |p| && i % 2 == 0
    ensures WellFormed(p[i..]) && (p[i].Command? || p[i].Chdir?)
    ensures i + 1 < |p| ==> IsOp(p[i + 1]) && i + 2 < |p| && p[i..][2..] == p[i + 2..]
    ensures i + 1 < |p| && p[i].Chdir? ==> p[i + 1].And?
    decreases i
  {
    var q := p[i..];
    assert InPlace(p, i);
    forall k | 0 <= k < |q| ensures InPlace(q, k) {
      assert InPlace(p, i + k);
    }
  }

  lemma PipedOnwards(p: seq<Node>, i: nat)
    requires i + 2 <= |p| && !p[i + 1].Command? && (p[i].Command? || p[i].Chdir?)
    ensures PipedAt(p, i + 2) <==> if p[i].Command? then p[i + 1].Pipe? else PipedAt(p, i)
  {
    var next := i + 2;
    if p[i].Command? {
      if p[i + 1].Pipe? {
        assert IsPipeTo(p, i, next);
      }
      if j :| 0 <= j < next - 1 && IsPipeTo(p, j, next) {
        assert j == i;
      }
    } else {
      if j :| 0 <= j < i - 1 && IsPipeTo(p, j, i) {
        assert IsPipeTo(p, j, next);
      }
      if j :| 0 <= j < next - 1 && IsPipeTo(p, j, next) {
        assert j != i;
        assert j + 1 != i;
        assert IsPipeTo(p, j, i);
      }
    }
  }

  // The jobs and the directory two positions on.
  lemma JobsOnwards(p: seq<Node>, i: nat)
    requires i + 2 <= |p| && IsOp(p[i + 1])
    ensures JobsUpTo(p, i + 1) == JobsUpTo(p, i) + if p[i].Command? then [Job(p[i], DirAt(p, i), PipedAt(p, i))] else []
    ensures JobsUpTo(p, i + 2) == JobsUpTo(p, i + 1)
    ensures DirAt(p, i + 2)
         == if p[i].Chdir? && p[i].dir.Some? then JoinPath(DirAt(p, i), p[i].dir.value) else DirAt(p, i)
  {
    hide PipedAt, JoinPath;
    assert JobsUpTo(p, i + 1) + [] == JobsUpTo(p, i + 1);
    assert DirAt(p, i + 2) == DirAt(p, i + 1);
  }

  // Nothing has stopped the run before position i, and the last jobs belong to an unfinished pipe.
  ghost predicate Reached(p: seq<Node>, codes: nat -> int, i: nat, done: seq<Job>, jobs: seq<Job>)
    requires i <= |p|
  {
    && (forall k :: 0 <= k < i ==> !Stops(p, codes, k) && !Fails(p, k))
    && JobsUpTo(p, i) == done + jobs && (jobs != [] <==> PipedAt(p, i))
  }

  // What the run still does from position i, with what has been done before it.
  ghost function RunOn(p: seq<Node>, codes: nat -> int, i: nat, done: seq<Job>, jobs: seq<Job>): (Outcome, seq<Job>)
    requires i <= |p| && WellFormed(p[i..])
  {
    After(done, Eval(Build(p[i..], DirAt(p, i), jobs), codes, |done|))
  }

  lemma {:induction false} RunFrom(p: seq<Node>, codes: nat -> int, i: nat, done: seq<Job>, jobs: seq<Job>)
    returns (e: nat)
    requires WellFormed(p) && i < |p| && i % 2 == 0 && Reached(p, codes, i, done, jobs)
    ensures e <= |p| && WellFormed(p[i..])
    ensures RunsTo(p, codes, e, RunOn(p, codes, i, done, jobs).0, RunOn(p, codes, i, done, jobs).1)
    decreases |p| - i
  {
    hide WellFormed, GoodWord, Reached, RunsTo, RunOn, DirAt, JobsUpTo, PipedAt, Eval, Build;
    WordsFrom(p, i);
    var jobs' := jobs + [Job(p[i], DirAt(p, i), jobs != [])];
    if i + 1 < |p| {
      WordsFrom(p, i + 2);
    }
    if p[i].Chdir? {
      if i + 1 < |p| && p[i].dir.Some? {
        CdOn(p, codes, i, done, jobs);
        CdReaches(p, codes, i, done, jobs);
        e := RunFrom(p, codes, i + 2, done, jobs);
      } else {
        e := i;
        CdFails(p, codes, i, done, jobs);
        FailsThere(p, codes, i, done, jobs);
      }
    } else {
      CommandOn(p, codes, i, done, jobs);
      if i + 1 == |p| {
        e := |p|;
        EndsThere(p, codes, i, done, jobs);
      } else if p[i + 1].Pipe? {
        CommandReaches(p, codes, i, done, jobs);
        e := RunFrom(p, codes, i + 2, done, jobs');
      } else if Stopping(p[i + 1], codes(|done + jobs|)) {
        e := i + 1;
        StopsThere(p, codes, i, done, jobs);
      } else {
        CommandReaches(p, codes, i, done, jobs);
        e := RunFrom(p, codes, i + 2, done + jobs', []);
      }
    }
  }

  // ---- the steps of the run

  ghost predicate Stopping(op: Node, status: int) {
    (op.And? && status != 0) || (op.Or? && status == 0)
  }

  lemma CdOn(p: seq<Node>, codes: nat -> int, i: nat, done: seq<Job>, jobs: seq<Job>)
    requires i + 2 < |p| && p[i].Chdir? && p[i].dir.Some? && IsOp(p[i + 1])
    requires WellFormed(p[i..]) && WellFormed(p[i + 2..]) && p[i..][2..] == p[i + 2..]
    ensures RunOn(p, codes, i, done, jobs) == RunOn(p, codes, i + 2, done, jobs)
  {
    JobsOnwards(p, i);
    hide WellFormed, GoodWord, Build, Eval, After, DirAt, JobsUpTo;
    ChdirStep(p[i..], DirAt(p, i), jobs, codes, |done|);
  }

  lemma CdFails(p: seq<Node>, codes: nat -> int, i: nat, done: seq<Job>, jobs: seq<Job>)
    requires i < |p| && WellFormed(p[i..]) && Fails(p, i)
    ensures RunOn(p, codes, i, done, jobs) == (if i == |p| - 1 then IndexError else NoDirectory, done + jobs)
  {
    hide WellFormed, GoodWord, Build, Eval, DirAt;
    ChdirStep(p[i..], DirAt(p, i), jobs, codes, |done|);
  }

  lemma CommandOn(p: seq<Node>, codes: nat -> int, i: nat, done: seq<Job>, jobs: seq<Job>)
    requires i < |p| && p[i].Command? && WellFormed(p[i..])
    requires i + 1 < |p| ==> i + 2 < |p| && IsOp(p[i + 1]) && WellFormed(p[i + 2..]) && p[i..][2..] == p[i + 2..]
    ensures var jobs' := jobs + [Job(p[i], DirAt(p, i), jobs != [])];
      var status := codes(|done + jobs|);
      RunOn(p, codes, i, done, jobs) ==
        if i + 1 == |p| || Stopping(p[i + 1], status) then (Returned(status), done + jobs')
        else if p[i + 1].Pipe? then RunOn(p, codes, i + 2, done, jobs')
        else RunOn(p, codes, i + 2, done + jobs', [])
  {
    DirOnwards(p, i);
    var dir, q := DirAt(p, i), p[i..];
    var job := Job(p[i], dir, jobs != []);
    JobsAssociate(done, jobs, job);
    hide WellFormed, GoodWord, Build, Eval, DirAt, After;
    CommandStep(q, dir, jobs, codes, |done|);
    AfterPair(done, codes(|done + jobs|), jobs + [job]);
    if i + 1 < |p| && !p[i + 1].Pipe? {
      AfterTwice(done, jobs + [job], Eval(Build(p[i + 2..], dir, []), codes, |done + (jobs + [job])|));
    }
  }

  lemma DirOnwards(p: seq<Node>, i: nat)
    requires i < |p| && p[i].Command? && (i + 1 < |p| ==> i + 2 < |p| && IsOp(p[i + 1]))
    ensures i + 1 < |p| ==> DirAt(p, i + 2) == DirAt(p, i)
  {
    if i + 1 < |p| {
      JobsOnwards(p, i);
    }
  }

  lemma AfterPair(done: seq<Job>, status: int, jobs: seq<Job>)
    ensures After(done, (Returned(status), jobs)) == (Returned(status), done + jobs)
  {
  }

  // ---- the positions that the steps come to

  lemma CdReaches(p: seq<Node>, codes: nat -> int, i: nat, done: seq<Job>, jobs: seq<Job>)
    requires i + 2 < |p| && Reached(p, codes, i, done, jobs) && p[i].Chdir? && p[i].dir.Some? && IsOp(p[i + 1])
    ensures Reached(p, codes, i + 2, done, jobs)
  {
    JobsOnwards(p, i);
    PipedOnwards(p, i);
    hide PipedAt, DirAt, JobsUpTo;
    assert JobsUpTo(p, i) + [] == JobsUpTo(p, i);
  }

  lemma FailsThere(p: seq<Node>, codes: nat -> int, i: nat, done: seq<Job>, jobs: seq<Job>)
    requires i < |p| && Reached(p, codes, i, done, jobs) && Fails(p, i)
    ensures RunsTo(p, codes, i, if i == |p| - 1 then IndexError else NoDirectory, done + jobs)
  {
    hide PipedAt, DirAt, JobsUpTo, Stops;
  }

  lemma EndsThere(p: seq<Node>, codes: nat -> int, i: nat, done: seq<Job>, jobs: seq<Job>)
    requires i + 1 == |p| && Reached(p, codes, i, done, jobs) && p[i].Command?
    ensures RunsTo(p, codes, |p|, Returned(codes(|done + jobs|)), done + (jobs + [Job(p[i], DirAt(p, i), jobs != [])]))
  {
    LastJob(p);
    assert !Stops(p, codes, i) && !Fails(p, i);
    hide PipedAt, DirAt, JobsUpTo, Stops, Fails;
    JobsAssociate(done, jobs, Job(p[i], DirAt(p, i), jobs != []));
  }

  lemma JobsAssociate(done: seq<Job>, jobs: seq<Job>, job: Job)
    ensures done + (jobs + [job]) == done + jobs + [job]
  {
  }

  // A command that is followed by an operator: it is started after the jobs so far.
  lemma CommandOnwards(p: seq<Node>, codes: nat -> int, i: nat, done: seq<Job>, jobs: seq<Job>)
    requires i + 2 <= |p| && Reached(p, codes, i, done, jobs) && p[i].Command? && IsOp(p[i + 1])
    ensures var jobs' := jobs + [Job(p[i], DirAt(p, i), jobs != [])];
      && JobsUpTo(p, i + 1) == JobsUpTo(p, i + 2) == done + jobs' == done + jobs + [Job(p[i], DirAt(p, i), jobs != [])]
      && (PipedAt(p, i + 2) <==> p[i + 1].Pipe?)
      && (forall k :: 0 <= k < i + 1 ==> !Stops(p, codes, k) && !Fails(p, k)) && !Fails(p, i + 1)
  {
    JobsOnwards(p, i);
    PipedOnwards(p, i);
    assert !Stops(p, codes, i) && !Fails(p, i) && !Fails(p, i + 1);
    hide PipedAt, DirAt, JobsUpTo, Stops, Fails;
    JobsAssociate(done, jobs, Job(p[i], DirAt(p, i), jobs != []));
  }

  lemma StopsThere(p: seq<Node>, codes: nat -> int, i: nat, done: seq<Job>, jobs: seq<Job>)
    requires i + 1 < |p| && Reached(p, codes, i, done, jobs) && p[i].Command? && IsOp(p[i + 1])
    requires Stopping(p[i + 1], codes(|done + jobs|))
    ensures RunsTo(p, codes, i + 1, Returned(codes(|done + jobs|)), done + (jobs + [Job(p[i], DirAt(p, i), jobs != [])]))
  {
    CommandOnwards(p, codes, i, done, jobs);
    hide PipedAt, DirAt, JobsUpTo, Fails;
  }

  lemma CommandReaches(p: seq<Node>, codes: nat -> int, i: nat, done: seq<Job>, jobs: seq<Job>)
    requires i + 2 < |p| && Reached(p, codes, i, done, jobs) && p[i].Command? && IsOp(p[i + 1])
    requires !Stopping(p[i + 1], codes(|done + jobs|))
    ensures var jobs' := jobs + [Job(p[i], DirAt(p, i), jobs != [])];
      if p[i + 1].Pipe? then Reached(p, codes, i + 2, done, jobs') else Reached(p, codes, i + 2, done + jobs', [])
  {
    CommandOnwards(p, codes, i, done, jobs);
    var jobs' := jobs + [Job(p[i], DirAt(p, i), jobs != [])];
    assert !Stops(p, codes, i + 1);
    hide PipedAt, DirAt, JobsUpTo, Stops, Fails;
    assert done + jobs' + [] == done + jobs';
  }

  lemma LastJob(p: seq<Node>)
    requires p != [] && p[|p| - 1].Command?
    ensures var n := |p| - 1;
      JobsUpTo(p, |p|) == JobsUpTo(p, n) + [Job(p[n], DirAt(p, n), PipedAt(p, n))]
  {
  }

  lemma StartsReached(p: seq<Node>, codes: nat -> int)
    ensures Reached(p, codes, 0, [], []) && p[0..] == p && DirAt(p, 0) == "."
  {
  }

  // What the run of a pipeline returns and starts.
  lemma RunIs(p: seq<Node>, codes: nat -> int)
    requires WellFormed(p)
    ensures exists e :: 0 <= e <= |p| &&
              RunsTo(p, codes, e, Eval(Build(p, ".", []), codes, 0).0, Eval(Build(p, ".", []), codes, 0).1)
  {
    StartsReached(p, codes);
    WordFirst(p);
    hide Reached, RunsTo, DirAt, Build, Eval, WellFormed, GoodWord;
    var e := RunFrom(p, codes, 0, [], []);
    AfterNone(Eval(Build(p, ".", []), codes, 0));
  }
}
