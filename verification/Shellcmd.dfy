/**
  The Pipeline class of shellcmd.py: parsing tokens, and running the parsed pipeline with its
  pipes and its short-circuiting && and ||.
 */
module Shellcmd {
  import opened Lists
  import opened ShellGrammar

  // ---- the meaning of a pipeline

  // A process: its command, its directory, and whether it reads from the process before it.
  datatype Job = Job(command: Node, cwd: string, piped: bool)

  // NoDirectory stands for joining None to a path: a TypeError under Python 3, an AttributeError
  // under Python 2.
  datatype Outcome = Returned(code: int) | IndexError | NoDirectory

  // An AND-OR list of pipe segments, nested to the right. A segment that reaches a cd without a
  // directory or without a successor gets stuck after the processes it has started.
  datatype Tree =
    | Segment(jobs: seq<Job>)
    | AndThen(jobs: seq<Job>, rest: Tree)
    | OrElse(jobs: seq<Job>, rest: Tree)
    | Stuck(jobs: seq<Job>, error: Outcome)

  function JoinPath(path: string, dir: string): string {
    if dir != "" && dir[0] == '/' then dir
    else if path == "" || path[|path| - 1] == '/' then path + dir
    else path + "/" + dir
  }

  // The segments of a pipeline from some word on, in a given directory and with the jobs that the
  // current segment has so far.
  ghost function Build(p: seq<Node>, cwd: string, jobs: seq<Job>): Tree
    requires WellFormed(p)
    decreases |p|
  {
    WordFirst(p);
    if |p| == 1 then
      if p[0].Chdir? then Stuck(jobs, IndexError) else Segment(jobs + [Job(p[0], cwd, jobs != [])])
    else if p[0].Chdir? then
      if p[0].dir.None? then Stuck(jobs, NoDirectory) else Build(p[2..], JoinPath(cwd, p[0].dir.value), jobs)
    else
      var jobs' := jobs + [Job(p[0], cwd, jobs != [])];
      if p[1].And? then AndThen(jobs', Build(p[2..], cwd, []))
      else if p[1].Or? then OrElse(jobs', Build(p[2..], cwd, []))
      else Build(p[2..], cwd, jobs')
  }

  lemma WordFirst(p: seq<Node>)
    requires WellFormed(p)
    ensures |p| > 0 && GoodWord(p[0]) && (|p| > 1 ==> Joined(p[0], p[1]) && |p| > 2 && WellFormed(p[2..]))
  {
    assert InPlace(p, 0);
    if |p| > 1 {
      assert InPlace(p, 1);
      var q := p[2..];
      forall i | 0 <= i < |q| ensures InPlace(q, i) {
        assert InPlace(p, i + 2);
      }
    }
  }

  // The status of a segment is that of its last process; codes(k) is what the k-th process started
  // exits with, and n processes have been started before.
  ghost function Status(jobs: seq<Job>, codes: nat -> int, n: nat): int {
    if jobs == [] then 0 else codes(n + |jobs| - 1)
  }

  // What a tree returns and the processes it starts.
  ghost function Eval(t: Tree, codes: nat -> int, n: nat): (Outcome, seq<Job>) {
    match t
    case Segment(jobs) => (Returned(Status(jobs, codes, n)), jobs)
    case Stuck(jobs, error) => (error, jobs)
    case AndThen(jobs, rest) =>
      if Status(jobs, codes, n) != 0 then (Returned(Status(jobs, codes, n)), jobs)
      else
        var (r, started) := Eval(rest, codes, n + |jobs|);
        (r, jobs + started)
    case OrElse(jobs, rest) =>
      if Status(jobs, codes, n) == 0 then (Returned(Status(jobs, codes, n)), jobs)
      else
        var (r, started) := Eval(rest, codes, n + |jobs|);
        (r, jobs + started)
  }

  // The result when some processes have been started before.
  ghost function After(done: seq<Job>, result: (Outcome, seq<Job>)): (Outcome, seq<Job>) {
    (result.0, done + result.1)
  }

  // ---- when a run returns

  ghost predicate HasStuck(t: Tree) {
    match t
    case Segment(_) => false
    case Stuck(_, _) => true
    case AndThen(_, rest) => HasStuck(rest)
    case OrElse(_, rest) => HasStuck(rest)
  }

  // Every segment that ends has started a process, and a stuck one ends in an exception.
  ghost predicate Proper(t: Tree) {
    match t
    case Segment(jobs) => jobs != []
    case Stuck(jobs, error) => !error.Returned?
    case AndThen(jobs, rest) => jobs != [] && Proper(rest)
    case OrElse(jobs, rest) => jobs != [] && Proper(rest)
  }

  // No cd stands last or lacks a directory.
  ghost predicate CdsComplete(p: seq<Node>) {
    forall i :: 0 <= i < |p| && p[i].Chdir? ==> i < |p| - 1 && p[i].dir.Some?
  }

  lemma {:induction false} StuckIffIncomplete(p: seq<Node>, cwd: string, jobs: seq<Job>)
    requires WellFormed(p)
    ensures HasStuck(Build(p, cwd, jobs)) <==> !CdsComplete(p)
    ensures Proper(Build(p, cwd, jobs))
    decreases |p|
  {
    WordFirst(p);
    if |p| > 1 {
      assert IsOp(p[1]) && !p[1].Chdir?;
      assert CdsComplete(p) <==> CdsComplete(p[2..]) && (p[0].Chdir? ==> p[0].dir.Some?) by {
        CdsSplit(p);
      }
      hide CdsComplete, WellFormed, GoodWord, Joined;
      var jobs' := jobs + [Job(p[0], cwd, jobs != [])];
      if p[0].Chdir? {
        if p[0].dir.Some? {
          StuckIffIncomplete(p[2..], JoinPath(cwd, p[0].dir.value), jobs);
        }
      } else if p[1].Pipe? {
        StuckIffIncomplete(p[2..], cwd, jobs');
      } else {
        StuckIffIncomplete(p[2..], cwd, []);
      }
    }
  }

  lemma CdsSplit(p: seq<Node>)
    requires |p| > 2 && !p[1].Chdir?
    ensures CdsComplete(p) <==> CdsComplete(p[2..]) && (p[0].Chdir? ==> p[0].dir.Some?)
  {
    if CdsComplete(p[2..]) && (p[0].Chdir? ==> p[0].dir.Some?) {
      forall i | 0 <= i < |p| && p[i].Chdir? ensures i < |p| - 1 && p[i].dir.Some? {
        if i >= 2 {
          assert p[2..][i - 2] == p[i];
        }
      }
    }
    if CdsComplete(p) {
      forall i | 0 <= i < |p[2..]| && p[2..][i].Chdir? ensures i < |p[2..]| - 1 && p[2..][i].dir.Some? {
        assert p[2..][i] == p[i + 2];
      }
    }
  }

  lemma {:induction false} EvalLooksAhead(t: Tree, codes: nat -> int, codes': nat -> int, n: nat)
    requires Proper(t) && forall k: nat :: k >= n ==> codes(k) == codes'(k)
    ensures Eval(t, codes, n) == Eval(t, codes', n)
  {
    match t {
      case Segment(_) =>
      case Stuck(_, _) =>
      case AndThen(jobs, rest) => EvalLooksAhead(rest, codes, codes', n + |jobs|);
      case OrElse(jobs, rest) => EvalLooksAhead(rest, codes, codes', n + |jobs|);
    }
  }

  // Statuses that never short-circuit, so that the end of the list is reached.
  lemma {:induction false} ReachTheEnd(t: Tree, n: nat) returns (codes: nat -> int)
    requires HasStuck(t) && Proper(t)
    ensures !Eval(t, codes, n).0.Returned?
  {
    match t {
      case Stuck(_, _) => codes := k => 0;
      case AndThen(jobs, rest) =>
        var later := ReachTheEnd(rest, n + |jobs|);
        codes := k => if k < n + |jobs| then 0 else later(k);
        EvalLooksAhead(rest, codes, later, n + |jobs|);
      case OrElse(jobs, rest) =>
        var later := ReachTheEnd(rest, n + |jobs|);
        codes := k => if k < n + |jobs| then 1 else later(k);
        EvalLooksAhead(rest, codes, later, n + |jobs|);
    }
  }

  lemma {:induction false} WithoutStuckReturns(t: Tree, codes: nat -> int, n: nat)
    requires !HasStuck(t)
    ensures Eval(t, codes, n).0.Returned?
  {
    match t {
      case Segment(_) =>
      case AndThen(jobs, rest) => WithoutStuckReturns(rest, codes, n + |jobs|);
      case OrElse(jobs, rest) => WithoutStuckReturns(rest, codes, n + |jobs|);
    }
  }

  // A parsed pipeline returns a status whatever its processes do exactly when its cds are complete.
  lemma ReturnsIff(p: seq<Node>)
    requires WellFormed(p)
    ensures CdsComplete(p) <==> forall codes: nat -> int :: Eval(Build(p, ".", []), codes, 0).0.Returned?
  {
    StuckIffIncomplete(p, ".", []);
    var t := Build(p, ".", []);
    if CdsComplete(p) {
      forall codes: nat -> int ensures Eval(t, codes, 0).0.Returned? {
        WithoutStuckReturns(t, codes, 0);
      }
    } else {
      var codes := ReachTheEnd(t, 0);
    }
  }

  // ---- the class

  class Pipeline {
    var currentCommand: Option<Node>
    var pipeline: seq<Node>

    constructor ()
      ensures currentCommand == None && pipeline == []
    {
      currentCommand, pipeline := None, [];
    }

    // False stands for the AssertionError.
    method CommitCommand() returns (ok: bool)
      modifies this
      ensures ok <==> old(currentCommand).Some?
      ensures ok ==> currentCommand == None && pipeline == old(pipeline) + [old(currentCommand).value]
    {
      if currentCommand.None? {
        return false;
      }
      pipeline := pipeline + [currentCommand.value];
      currentCommand := None;
      return true;
    }

    method CommitBefore(op: Node) returns (ok: bool)
      modifies this
      ensures ok <==> old(currentCommand).Some?
      ensures ok ==> currentCommand == None && pipeline == old(pipeline) + [old(currentCommand).value, op]
    {
      ok := CommitCommand();
      if ok {
        pipeline := pipeline + [op];
      }
    }

    method Parse(command: seq<string>) returns (ok: bool)
      modifies this
      ensures ok <==> ParseTokens(command).Some?
      ensures ok ==> ParseTokens(command) == Some(pipeline) && WellFormed(pipeline)
    {
      currentCommand, pipeline := None, [];
      var tokens := command;
      var state := Begin;
      var envVars: seq<(string, string)> := [];
      while tokens != []
        invariant Consume(START, command) == Consume(Machine(state, currentCommand, pipeline, envVars), tokens)
        decreases |tokens|
      {
        ghost var before := Machine(state, currentCommand, pipeline, envVars);
        var token := tokens[0];
        tokens := tokens[1..];
        ok, state, envVars := Take(token, state, envVars);
        if !ok {
          return;
        }
      }
      ok := CommitCommand();
      if ok {
        AcceptedIsWellFormed(command);
      }
    }

    // The work of the parser on one token.
    method Take(token: string, state: State, envVars: seq<(string, string)>)
      returns (ok: bool, state': State, envVars': seq<(string, string)>)
      modifies this
      ensures Step(Machine(state, old(currentCommand), old(pipeline), envVars), token)
           == if ok then Some(Machine(state', currentCommand, pipeline, envVars')) else None
    {
      ok, state', envVars' := true, state, envVars;
      match state
      case Begin =>
        var envVarMatch := EnvMatch(token);
        if envVarMatch.Some? {
          envVars' := SetVar(envVars, envVarMatch.value.0, envVarMatch.value.1);
        } else if currentCommand.Some? {
          ok := false;
        } else if token == "cd" {
          currentCommand := Some(Chdir(None));
          ok := envVars == [];
          state' := InChdir;
        } else {
          currentCommand := Some(Command([token], None, Inherit, Inherit, envVars));
          envVars' := [];
          state' := InCommand;
        }
      case InChdir =>
        if token == "&&" {
          ok := CommitBefore(And);
          state' := Begin;
        } else if currentCommand.None? || !currentCommand.value.Chdir? || currentCommand.value.dir.Some? {
          ok := false;
        } else {
          currentCommand := Some(Chdir(Some(token)));
        }
      case InCommand => ok, state' := TakeInCommand(token, envVars);
      case _ => ok, state' := TakeTarget(token, state, envVars);
    }

    method TakeInCommand(token: string, ghost envVars: seq<(string, string)>) returns (ok: bool, state': State)
      modifies this
      ensures Step(Machine(InCommand, old(currentCommand), old(pipeline), envVars), token)
           == if ok then Some(Machine(state', currentCommand, pipeline, envVars)) else None
    {
      ok, state' := true, InCommand;
      if currentCommand.None? || !currentCommand.value.Command? {
        return false, InCommand;
      }
      var c := currentCommand.value;
      if token == ">" {
        state' := InStdout;
      } else if token == "2>" {
        state' := InStderr;
      } else if token == "2>&1" {
        ok := c.stderr == Inherit;
        currentCommand := Some(c.(stderr := ToStdout));
      } else if token == "<" {
        state' := InStdin;
      } else if token == "|" {
        if c.stdout != Inherit {
          return false, InCommand;
        }
        currentCommand := Some(c.(stdout := PipeMark));
        ok := CommitBefore(Pipe);
        state' := Begin;
      } else if token == "&&" {
        ok := CommitBefore(And);
        state' := Begin;
      } else if token == "||" {
        ok := CommitBefore(Or);
        state' := Begin;
      } else {
        currentCommand := Some(c.(argv := c.argv + [token]));
      }
    }

    method TakeTarget(token: string, state: State, ghost envVars: seq<(string, string)>)
      returns (ok: bool, state': State)
      requires state.InStdout? || state.InStderr? || state.InStdin?
      modifies this
      ensures Step(Machine(state, old(currentCommand), old(pipeline), envVars), token)
           == if ok then Some(Machine(state', currentCommand, pipeline, envVars)) else None
    {
      state' := InCommand;
      if currentCommand.None? || !currentCommand.value.Command? {
        return false, InCommand;
      }
      var c := currentCommand.value;
      match state
      case InStdout =>
        ok := c.stdout == Inherit;
        currentCommand := Some(c.(stdout := File(token)));
      case InStderr =>
        ok := c.stderr == Inherit;
        currentCommand := Some(c.(stderr := File(token)));
      case InStdin =>
        ok := c.stdin == None;
        currentCommand := Some(c.(stdin := Some(token)));
    }

    // Runs what was parsed. The codes stand for the processes: the k-th one started exits with
    // codes(k). The second result is the processes started.
    method Run(codes: nat -> int) returns (r: Outcome, started: seq<Job>)
      requires WellFormed(pipeline)
      ensures (r, started) == Eval(Build(pipeline, ".", []), codes, 0)
    {
      hide WellFormed, Build, Eval;
      var nodes := pipeline;
      started := [];
      var pipedCommands: seq<int> := [];
      ghost var segment: seq<Job>, done: seq<Job> := [], [];
      var piping := false;
      var cwd := ".";
      AfterNone(Eval(Build(nodes, cwd, segment), codes, 0));
      while true
        invariant WellFormed(nodes) && started == done + segment && (piping <==> segment != [])
        invariant |pipedCommands| == |segment|
        invariant segment != [] ==> pipedCommands[|segment| - 1] == Status(segment, codes, |done|)
        invariant After(done, Eval(Build(nodes, cwd, segment), codes, |done|))
               == Eval(Build(pipeline, ".", []), codes, 0)
        decreases |nodes|
      {
        WordFirst(nodes);
        ghost var before := nodes;
        var node := nodes[0];
        nodes := nodes[1..];
        if node.Chdir? {
          ChdirStep(before, cwd, segment, codes, |done|);
          if nodes == [] {
            return IndexError, started;
          }
          nodes := nodes[1..];
          if node.dir.None? {
            return NoDirectory, started;
          }
          cwd := JoinPath(cwd, node.dir.value);
          continue;
        }
        CommandStep(before, cwd, segment, codes, |done|);
        pipedCommands := pipedCommands + [codes(|started|)];
        segment := segment + [Job(node, cwd, piping)];
        started := started + [Job(node, cwd, piping)];
        assert started == done + segment;
        if nodes == [] {
          var retval := ExecPipedCommands(pipedCommands);
          return Returned(retval), started;
        }
        var next := nodes[0];
        nodes := nodes[1..];
        if next.Pipe? {
          piping := true;
        } else {
          var retval := ExecPipedCommands(pipedCommands);
          if if next.Or? then retval == 0 else retval != 0 {
            return Returned(retval), started;
          }
          AfterTwice(done, segment, Eval(Build(nodes, cwd, []), codes, |done + segment|));
          piping, pipedCommands := false, [];
          done, segment := done + segment, [];
        }
      }
    }
  }

  lemma AfterNone(result: (Outcome, seq<Job>))
    ensures After([], result) == result
  {
    assert [] + result.1 == result.1;
  }

  lemma AfterTwice(done: seq<Job>, segment: seq<Job>, result: (Outcome, seq<Job>))
    ensures After(done, After(segment, result)) == After(done + segment, result)
  {
    assert done + (segment + result.1) == done + segment + result.1;
  }

  lemma ChdirStep(p: seq<Node>, cwd: string, jobs: seq<Job>, codes: nat -> int, n: nat)
    requires WellFormed(p) && p[0].Chdir?
    ensures |p| == 1 ==> Eval(Build(p, cwd, jobs), codes, n) == (IndexError, jobs)
    ensures |p| > 1 && p[0].dir.None? ==> Eval(Build(p, cwd, jobs), codes, n) == (NoDirectory, jobs)
    ensures |p| > 1 && p[0].dir.Some? ==>
              WellFormed(p[2..]) && Build(p, cwd, jobs) == Build(p[2..], JoinPath(cwd, p[0].dir.value), jobs)
  {
    WordFirst(p);
  }

  lemma CommandStep(p: seq<Node>, cwd: string, jobs: seq<Job>, codes: nat -> int, n: nat)
    requires WellFormed(p) && p[0].Command?
    ensures |p| > 1 ==> IsOp(p[1]) && WellFormed(p[2..])
    ensures var jobs' := jobs + [Job(p[0], cwd, jobs != [])];
      var status := Returned(codes(n + |jobs|));
      Eval(Build(p, cwd, jobs), codes, n) ==
        if |p| == 1 then (status, jobs')
        else if p[1].Pipe? then Eval(Build(p[2..], cwd, jobs'), codes, n)
        else if (p[1].Or? && status.code == 0) || (p[1].And? && status.code != 0) then (status, jobs')
        else After(jobs', Eval(Build(p[2..], cwd, []), codes, n + |jobs'|))
  {
    WordFirst(p);
  }

  // Zero when all succeed, otherwise the last status, which is the last status in either case.
  method ExecPipedCommands(retvals: seq<int>) returns (retval: int)
    ensures retval == if retvals == [] then 0 else retvals[|retvals| - 1]
  {
    retval := 0;
    for i := 0 to |retvals|
      invariant retval == 0 && forall k :: 0 <= k < i ==> retvals[k] == 0
    {
      if retvals[i] != 0 {
        retval := retvals[|retvals| - 1];
        break;
      }
    }
  }
}
