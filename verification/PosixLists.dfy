/**
  The pipelines of shellcmd.py as the Shell Command Language of POSIX reads them, and the exact
  condition under which Pipeline.Run does the same.
 */
module PosixLists {
  import opened Lists
  import opened ShellGrammar
  import opened Shellcmd

  // ---- AND-OR lists, section 2.9.3: operators of equal precedence that associate to the left

  // A list from a word that is to be executed, piped when it reads from the word before it. A cd
  // is a command like any other: its status is zero, without a directory it goes home, and at the
  // end of a pipe it runs in a subshell and does not move the shell.
  ghost function Execute(p: seq<Node>, home: string, cwd: string, piped: bool, codes: nat -> int, n: nat)
    : (Outcome, seq<Job>)
    requires WellFormed(p)
    decreases |p|, 0
  {
    WordFirst(p);
    if p[0].Chdir? then
      var target := if p[0].dir.None? then home else JoinPath(cwd, p[0].dir.value);
      if |p| == 1 then (Returned(0), [])
      else Decide(0, p[1], p[2..], home, if piped then cwd else target, codes, n)
    else
      var job := Job(p[0], cwd, piped);
      if |p| == 1 then (Returned(codes(n)), [job])
      else if p[1].Pipe? then After([job], Execute(p[2..], home, cwd, true, codes, n + 1))
      else After([job], Decide(codes(n), p[1], p[2..], home, cwd, codes, n + 1))
  }

  ghost predicate GoesOn(op: Node, status: int) {
    if op.Or? then status != 0 else status == 0
  }

  // An operator looks at the status of everything before it.
  ghost function Decide(status: int, op: Node, p: seq<Node>, home: string, cwd: string, codes: nat -> int, n: nat)
    : (Outcome, seq<Job>)
    requires WellFormed(p)
    decreases |p|, 1
  {
    if GoesOn(op, status) then Execute(p, home, cwd, false, codes, n)
    else Skip(status, p, home, cwd, codes, n)
  }

  // A pipe that is passed over leaves the status to the next operator.
  ghost function Skip(status: int, p: seq<Node>, home: string, cwd: string, codes: nat -> int, n: nat)
    : (Outcome, seq<Job>)
    requires WellFormed(p)
    decreases |p|, 0
  {
    WordFirst(p);
    if |p| == 1 then (Returned(status), [])
    else if p[1].Pipe? then Skip(status, p[2..], home, cwd, codes, n)
    else Decide(status, p[1], p[2..], home, cwd, codes, n)
  }

  // ---- when the nesting to the right makes no difference

  ghost predicate NoOr(p: seq<Node>) {
    forall i :: 0 <= i < |p| ==> !p[i].Or?
  }

  ghost predicate NoAnd(p: seq<Node>) {
    forall i :: 0 <= i < |p| ==> !p[i].And?
  }

  // Only cds stand before any And.
  ghost predicate AndsBehindCds(p: seq<Node>) {
    forall i, j :: 0 <= i < j < |p| && p[j].And? ==> !p[i].Command?
  }

  ghost predicate NoPipedCd(p: seq<Node>) {
    forall i :: 0 <= i < |p| - 1 && p[i].Pipe? ==> !p[i + 1].Chdir?
  }

  ghost predicate ReadsAsPosix(p: seq<Node>) {
    CdsComplete(p) && NoPipedCd(p) && (NoOr(p) || AndsBehindCds(p))
  }

  // How the conditions on a list follow from its first word, its first operator and the rest.
  lemma Unfold(p: seq<Node>)
    requires WellFormed(p) && |p| > 1
    ensures |p| > 2 && WellFormed(p[2..]) && Joined(p[0], p[1]) && (p[0].Command? || p[0].Chdir?)
    ensures CdsComplete(p) <==> CdsComplete(p[2..]) && (p[0].Chdir? ==> p[0].dir.Some?)
    ensures NoPipedCd(p) <==> NoPipedCd(p[2..]) && !(p[1].Pipe? && p[2].Chdir?)
    ensures NoOr(p) <==> NoOr(p[2..]) && !p[1].Or?
    ensures NoAnd(p) <==> NoAnd(p[2..]) && !p[1].And?
    ensures AndsBehindCds(p) <==> if p[0].Command? then NoAnd(p) else AndsBehindCds(p[2..])
  {
    WordFirst(p);
    CdsSplit(p);
    var q := p[2..];
    assert forall i :: 0 <= i < |q| ==> q[i] == p[i + 2];
    hide WellFormed, GoodWord, CdsComplete;
    SplitOperators(p);
    SplitPipes(p);
    SplitCds(p);
  }

  lemma SplitOperators(p: seq<Node>)
    requires |p| > 2 && !p[0].Or? && !p[0].And?
    ensures NoOr(p) <==> NoOr(p[2..]) && !p[1].Or?
    ensures NoAnd(p) <==> NoAnd(p[2..]) && !p[1].And?
  {
    var q := p[2..];
    assert forall i :: 2 <= i < |p| ==> p[i] == q[i - 2];
  }

  lemma SplitPipes(p: seq<Node>)
    requires |p| > 2 && !p[0].Pipe?
    ensures NoPipedCd(p) <==> NoPipedCd(p[2..]) && !(p[1].Pipe? && p[2].Chdir?)
  {
    var q := p[2..];
    assert forall i :: 2 <= i < |p| ==> p[i] == q[i - 2];
  }

  lemma SplitCds(p: seq<Node>)
    requires |p| > 2 && IsOp(p[1]) && (p[0].Command? || p[0].Chdir?)
    ensures AndsBehindCds(p) <==> if p[0].Command? then NoAnd(p) else AndsBehindCds(p[2..])
  {
    var q := p[2..];
    assert forall i :: 2 <= i < |p| ==> p[i] == q[i - 2];
    if p[0].Command? {
      BehindCommand(p);
    }
    if p[0].Chdir? && AndsBehindCds(p) {
      forall i, j | 0 <= i < j < |q| && q[j].And? ensures !q[i].Command? {
        assert p[j + 2].And? && p[i + 2] == q[i];
      }
    }
  }

  lemma BehindCommand(p: seq<Node>)
    requires p != [] && p[0].Command?
    ensures AndsBehindCds(p) <==> NoAnd(p)
  {
    if AndsBehindCds(p) {
      forall j | 0 <= j < |p| ensures !p[j].And? {
        assert j > 0 ==> !p[j].And?;
      }
    }
  }

  lemma PipedCdHasAnd(p: seq<Node>)
    requires WellFormed(p) && CdsComplete(p) && !NoPipedCd(p)
    ensures !NoAnd(p)
  {
    var i :| 0 <= i < |p| - 1 && p[i].Pipe? && p[i + 1].Chdir?;
    assert InPlace(p, i) && InPlace(p, i + 1);
    assert p[i + 2].And?;
  }

  // ---- agreement

  lemma {:induction false} SkipsToTheEnd(status: int, p: seq<Node>, home: string, cwd: string,
                                         codes: nat -> int, n: nat)
    requires WellFormed(p) && if status == 0 then NoAnd(p) else NoOr(p)
    ensures Skip(status, p, home, cwd, codes, n) == (Returned(status), [])
    decreases |p|
  {
    if |p| > 1 {
      Unfold(p);
      SkipsToTheEnd(status, p[2..], home, cwd, codes, n);
    }
  }

  // What POSIX does after the command that a list begins with.
  ghost function ExecuteRest(p: seq<Node>, home: string, cwd: string, jobs: seq<Job>, codes: nat -> int, n: nat)
    : (rest: (Outcome, seq<Job>))
    requires WellFormed(p) && |p| > 1 && p[0].Command?
    ensures Execute(p, home, cwd, jobs != [], codes, n + |jobs|) == After([Job(p[0], cwd, jobs != [])], rest)
  {
    WordFirst(p);
    var m := n + |jobs|;
    if p[1].Pipe? then Execute(p[2..], home, cwd, true, codes, m + 1)
    else Decide(codes(m), p[1], p[2..], home, cwd, codes, m + 1)
  }

  // The next command of a pipe, in both readings.
  lemma PipeStep(p: seq<Node>, home: string, cwd: string, jobs: seq<Job>, codes: nat -> int, n: nat)
    requires WellFormed(p) && |p| > 1 && p[0].Command? && p[1].Pipe? && WellFormed(p[2..])
    ensures var jobs' := jobs + [Job(p[0], cwd, jobs != [])];
      && Eval(Build(p, cwd, jobs), codes, n) == Eval(Build(p[2..], cwd, jobs'), codes, n)
      && After(jobs, Execute(p, home, cwd, jobs != [], codes, n + |jobs|))
           == After(jobs', Execute(p[2..], home, cwd, true, codes, n + |jobs'|))
  {
    hide WellFormed, GoodWord, Build, Eval, Execute, After;
    CommandStep(p, cwd, jobs, codes, n);
    AfterTwice(jobs, [Job(p[0], cwd, jobs != [])], ExecuteRest(p, home, cwd, jobs, codes, n));
  }

  // A segment that ends, and an operator that goes on.
  lemma GoOnStep(p: seq<Node>, home: string, cwd: string, jobs: seq<Job>, codes: nat -> int, n: nat)
    requires WellFormed(p) && |p| > 1 && p[0].Command? && !p[1].Pipe? && WellFormed(p[2..])
    requires GoesOn(p[1], codes(n + |jobs|))
    ensures var jobs' := jobs + [Job(p[0], cwd, jobs != [])];
      && Eval(Build(p, cwd, jobs), codes, n) == After(jobs', Eval(Build(p[2..], cwd, []), codes, n + |jobs'|))
      && After(jobs, Execute(p, home, cwd, jobs != [], codes, n + |jobs|))
           == After(jobs', Execute(p[2..], home, cwd, false, codes, n + |jobs'|))
  {
    hide WellFormed, GoodWord, Build, Eval, Execute, After;
    CommandStep(p, cwd, jobs, codes, n);
    AfterTwice(jobs, [Job(p[0], cwd, jobs != [])], ExecuteRest(p, home, cwd, jobs, codes, n));
  }

  // A segment that ends, and an operator that stops the program.
  lemma StopStep(p: seq<Node>, home: string, cwd: string, jobs: seq<Job>, codes: nat -> int, n: nat)
    requires WellFormed(p) && |p| > 1 && p[0].Command? && !p[1].Pipe? && WellFormed(p[2..])
    requires !GoesOn(p[1], codes(n + |jobs|))
    ensures var jobs' := jobs + [Job(p[0], cwd, jobs != [])];
      && Eval(Build(p, cwd, jobs), codes, n) == After(jobs', (Returned(codes(n + |jobs|)), []))
      && After(jobs, Execute(p, home, cwd, jobs != [], codes, n + |jobs|))
           == After(jobs', Skip(codes(n + |jobs|), p[2..], home, cwd, codes, n + |jobs'|))
  {
    hide WellFormed, GoodWord, Build, Eval, Execute, Skip;
    var jobs' := jobs + [Job(p[0], cwd, jobs != [])];
    CommandStep(p, cwd, jobs, codes, n);
    assert jobs' + [] == jobs';
    hide After;
    AfterTwice(jobs, [Job(p[0], cwd, jobs != [])], ExecuteRest(p, home, cwd, jobs, codes, n));
  }

  lemma LastStep(p: seq<Node>, home: string, cwd: string, jobs: seq<Job>, codes: nat -> int, n: nat)
    requires WellFormed(p) && |p| == 1 && p[0].Command?
    ensures Eval(Build(p, cwd, jobs), codes, n) == After(jobs, Execute(p, home, cwd, jobs != [], codes, n + |jobs|))
  {
    CommandStep(p, cwd, jobs, codes, n);
  }

  // The run so far has started the given jobs of the current segment.
  lemma {:induction false} Agrees(p: seq<Node>, home: string, cwd: string, jobs: seq<Job>, codes: nat -> int, n: nat)
    requires WellFormed(p) && ReadsAsPosix(p) && (p[0].Chdir? ==> jobs == [])
    ensures Eval(Build(p, cwd, jobs), codes, n)
         == After(jobs, Execute(p, home, cwd, jobs != [], codes, n + |jobs|))
    decreases |p|
  {
    WordFirst(p);
    if |p| > 1 { Unfold(p); }
    hide WellFormed, GoodWord, NoOr, NoAnd, AndsBehindCds, NoPipedCd, Build, Eval, Execute, Skip, After, CdsComplete;
    if p[0].Chdir? {
      LeadingStep(p, home, cwd, codes, n);
      Agrees(p[2..], home, JoinPath(cwd, p[0].dir.value), [], codes, n);
    } else if |p| == 1 {
      LastStep(p, home, cwd, jobs, codes, n);
    } else {
      AgreesAfterCommand(p, home, cwd, jobs, codes, n);
    }
  }

  lemma {:induction false} AgreesAfterCommand(p: seq<Node>, home: string, cwd: string, jobs: seq<Job>,
                                              codes: nat -> int, n: nat)
    requires WellFormed(p) && ReadsAsPosix(p) && |p| > 1 && p[0].Command?
    ensures Eval(Build(p, cwd, jobs), codes, n)
         == After(jobs, Execute(p, home, cwd, jobs != [], codes, n + |jobs|))
    decreases |p|, 0
  {
    Unfold(p);
    if NoAnd(p[2..]) {
      assert AndsBehindCds(p[2..]);
    }
    var status, jobs' := codes(n + |jobs|), jobs + [Job(p[0], cwd, jobs != [])];
    hide WellFormed, GoodWord, NoOr, NoAnd, AndsBehindCds, NoPipedCd, Build, Eval, Execute, Skip, After, CdsComplete;
    if p[1].Pipe? {
      PipeStep(p, home, cwd, jobs, codes, n);
      Agrees(p[2..], home, cwd, jobs', codes, n);
    } else if GoesOn(p[1], status) {
      GoOnStep(p, home, cwd, jobs, codes, n);
      Agrees(p[2..], home, cwd, [], codes, n + |jobs'|);
      AfterNone(Execute(p[2..], home, cwd, false, codes, n + |jobs'|));
    } else {
      StopStep(p, home, cwd, jobs, codes, n);
      SkipsToTheEnd(status, p[2..], home, cwd, codes, n + |jobs'|);
    }
  }

  // A cd that does not end a pipe, in both readings.
  lemma LeadingStep(p: seq<Node>, home: string, cwd: string, codes: nat -> int, n: nat)
    requires WellFormed(p) && |p| > 1 && p[0].Chdir? && p[0].dir.Some? && WellFormed(p[2..])
    ensures var cwd' := JoinPath(cwd, p[0].dir.value);
      && Eval(Build(p, cwd, []), codes, n) == Eval(Build(p[2..], cwd', []), codes, n)
      && Execute(p, home, cwd, false, codes, n) == Execute(p[2..], home, cwd', false, codes, n)
  {
    WordFirst(p);
    hide WellFormed, Build, Eval, JoinPath;
    ChdirStep(p, cwd, [], codes, n);
  }

  // ---- disagreement

  lemma {:induction false} ExecuteReturns(p: seq<Node>, home: string, cwd: string, piped: bool,
                                          codes: nat -> int, n: nat)
    requires WellFormed(p)
    ensures Execute(p, home, cwd, piped, codes, n).0.Returned?
    decreases |p|, 0
  {
    WordFirst(p);
    if |p| > 1 {
      if p[0].Chdir? {
        var target := if p[0].dir.None? then home else JoinPath(cwd, p[0].dir.value);
        DecideReturns(0, p[1], p[2..], home, if piped then cwd else target, codes, n);
      } else if p[1].Pipe? {
        ExecuteReturns(p[2..], home, cwd, true, codes, n + 1);
      } else {
        DecideReturns(codes(n), p[1], p[2..], home, cwd, codes, n + 1);
      }
    }
  }

  lemma {:induction false} DecideReturns(status: int, op: Node, p: seq<Node>, home: string, cwd: string,
                                         codes: nat -> int, n: nat)
    requires WellFormed(p)
    ensures Decide(status, op, p, home, cwd, codes, n).0.Returned?
    ensures Skip(status, p, home, cwd, codes, n).0.Returned?
    decreases |p|, 1
  {
    ExecuteReturns(p, home, cwd, false, codes, n);
    if |p| > 1 {
      WordFirst(p);
      DecideReturns(status, p[1], p[2..], home, cwd, codes, n);
    }
  }

  // The first process that is started reads from a pipe only if the list began in one and with a command.
  lemma {:induction false} FirstStarted(p: seq<Node>, home: string, cwd: string, piped: bool, codes: nat -> int, n: nat)
    requires WellFormed(p) && CdsComplete(p)
    ensures var started := Execute(p, home, cwd, piped, codes, n).1;
      started != [] && (started[0].piped <==> piped && p[0].Command?)
    decreases |p|
  {
    WordFirst(p);
    if |p| > 1 { Unfold(p); }
    if p[0].Chdir? {
      FirstStarted(p[2..], home, if piped then cwd else JoinPath(cwd, p[0].dir.value), false, codes, n);
    }
  }

  // The program hands the pipe on to the next command.
  lemma {:induction false} PipeHandedOn(p: seq<Node>, cwd: string, jobs: seq<Job>, codes: nat -> int, n: nat)
    requires WellFormed(p) && CdsComplete(p) && jobs != []
    ensures var started := Eval(Build(p, cwd, jobs), codes, n).1;
      |started| > |jobs| && started[|jobs|].piped
    decreases |p|
  {
    WordFirst(p);
    if |p| > 1 { Unfold(p); }
    if p[0].Chdir? {
      ChdirStep(p, cwd, jobs, codes, n);
      PipeHandedOn(p[2..], JoinPath(cwd, p[0].dir.value), jobs, codes, n);
    } else {
      CommandStep(p, cwd, jobs, codes, n);
      var jobs' := jobs + [Job(p[0], cwd, true)];
      if |p| > 1 && p[1].Pipe? {
        PipeHandedOn(p[2..], cwd, jobs', codes, n);
        KeepsJobs(p[2..], cwd, jobs', codes, n);
      }
    }
  }

  lemma {:induction false} KeepsJobs(p: seq<Node>, cwd: string, jobs: seq<Job>, codes: nat -> int, n: nat)
    requires WellFormed(p)
    ensures jobs <= Eval(Build(p, cwd, jobs), codes, n).1
    decreases |p|
  {
    WordFirst(p);
    if |p| > 1 {
      if p[0].Chdir? {
        if p[0].dir.Some? {
          KeepsJobs(p[2..], JoinPath(cwd, p[0].dir.value), jobs, codes, n);
        }
      } else if p[1].Pipe? {
        KeepsJobs(p[2..], cwd, jobs + [Job(p[0], cwd, jobs != [])], codes, n);
      }
    }
  }

  // A status that was passed over once starts something at the first operator of the other kind.
  lemma {:induction false} SkipStarts(status: int, p: seq<Node>, home: string, cwd: string, codes: nat -> int, n: nat)
    requires WellFormed(p) && CdsComplete(p) && if status == 0 then !NoAnd(p) else !NoOr(p)
    ensures Skip(status, p, home, cwd, codes, n).1 != []
    decreases |p|
  {
    WordFirst(p);
    if |p| > 1 {
      Unfold(p);
      if p[1].Pipe? || (if p[1].Or? then status == 0 else status != 0) {
        SkipStarts(status, p[2..], home, cwd, codes, n);
      } else {
        FirstStarted(p[2..], home, cwd, false, codes, n);
      }
    }
  }

  ghost function Always(status: int): nat -> int {
    _ => status
  }

  // All processes succeeding, or all failing, tells the two readings apart.
  lemma {:induction false} Differs(p: seq<Node>, home: string, cwd: string, jobs: seq<Job>, n: nat)
    returns (status: int)
    requires WellFormed(p) && CdsComplete(p)
    requires !ReadsAsPosix(p) || (p[0].Chdir? && jobs != [])
    ensures NoOr(p) ==> status == 0
    ensures Eval(Build(p, cwd, jobs), Always(status), n)
         != After(jobs, Execute(p, home, cwd, jobs != [], Always(status), n + |jobs|))
    decreases |p|
  {
    WordFirst(p);
    status := 0;
    if |p| > 1 { Unfold(p); }
    if p[0].Chdir? && jobs != [] {
      PipeHandedOn(p, cwd, jobs, Always(0), n);
      FirstStarted(p, home, cwd, true, Always(0), n + |jobs|);
    } else if p[0].Chdir? {
      status := Differs(p[2..], home, JoinPath(cwd, p[0].dir.value), [], n);
      LeadingStep(p, home, cwd, Always(status), n);
    } else {
      status := DiffersAfterCommand(p, home, cwd, jobs, n);
    }
  }

  lemma {:induction false} DiffersAfterCommand(p: seq<Node>, home: string, cwd: string, jobs: seq<Job>, n: nat)
    returns (status: int)
    requires WellFormed(p) && CdsComplete(p) && !ReadsAsPosix(p) && p[0].Command?
    ensures NoOr(p) ==> status == 0
    ensures Eval(Build(p, cwd, jobs), Always(status), n)
         != After(jobs, Execute(p, home, cwd, jobs != [], Always(status), n + |jobs|))
    decreases |p|, 0
  {
    assert |p| > 1;
    Unfold(p);
    WordFirst(p[2..]);
    var jobs' := jobs + [Job(p[0], cwd, jobs != [])];
    var m := n + |jobs'|;
    hide NoOr, NoAnd, AndsBehindCds, NoPipedCd, WellFormed, CdsComplete, GoodWord, Eval, Build, Execute, Skip, After;
    if p[1].Pipe? {
      if p[2].Command? {
        BehindCommand(p[2..]);
      }
      status := Differs(p[2..], home, cwd, jobs', n);
      PipeStep(p, home, cwd, jobs, Always(status), n);
    } else if p[1].And? && NoOr(p[2..]) {
      status := Differs(p[2..], home, cwd, [], m);
      AfterNone(Execute(p[2..], home, cwd, false, Always(status), m));
      AfterInjective(jobs', Eval(Build(p[2..], cwd, []), Always(status), m),
                     Execute(p[2..], home, cwd, false, Always(status), m));
      GoOnStep(p, home, cwd, jobs, Always(status), n);
    } else {
      status := if p[1].And? then 1 else 0;
      if p[1].Or? && !NoPipedCd(p[2..]) {
        PipedCdHasAnd(p[2..]);
      }
      SkipStarts(status, p[2..], home, cwd, Always(status), m);
      AfterInjective(jobs', (Returned(status), []), Skip(status, p[2..], home, cwd, Always(status), m));
      StopStep(p, home, cwd, jobs, Always(status), n);
    }
  }

  lemma AfterInjective(done: seq<Job>, a: (Outcome, seq<Job>), b: (Outcome, seq<Job>))
    requires a != b
    ensures After(done, a) != After(done, b)
  {
    assert (done + a.1)[|done|..] == a.1 && (done + b.1)[|done|..] == b.1;
  }

  // For all exit codes, status and started processes are those of POSIX exactly when no cd is
  // last, without a directory or at the end of a pipe, and there is no Or or no command before
  // an And.
  lemma AgreesWithPosixIff(p: seq<Node>, home: string)
    requires WellFormed(p)
    ensures ReadsAsPosix(p) <==>
      forall codes: nat -> int :: Eval(Build(p, ".", []), codes, 0) == Execute(p, home, ".", false, codes, 0)
  {
    if ReadsAsPosix(p) {
      forall codes: nat -> int ensures Eval(Build(p, ".", []), codes, 0) == Execute(p, home, ".", false, codes, 0) {
        Agrees(p, home, ".", [], codes, 0);
        AfterNone(Execute(p, home, ".", false, codes, 0));
      }
    } else if CdsComplete(p) {
      var status := Differs(p, home, ".", [], 0);
      AfterNone(Execute(p, home, ".", false, Always(status), 0));
    } else {
      StuckIffIncomplete(p, ".", []);
      var codes := ReachTheEnd(Build(p, ".", []), 0);
      ExecuteReturns(p, home, ".", false, codes, 0);
    }
  }

  // ---- examples

  ghost function Plain(name: string, stdout: Target): Node {
    Command([name], None, stdout, Inherit, [])
  }

  // The word a, an operator, and then cd x && b.
  ghost function WithCd(op: Node): seq<Node> {
    [Plain("a", if op.Pipe? then PipeMark else Inherit), op, Chdir(Some("x")), And, Plain("b", Inherit)]
  }

  lemma GoodPlain(name: string, stdout: Target)
    requires |name| == 1 && IsNameChar(name[0]) && (stdout == Inherit || stdout == PipeMark)
    ensures GoodWord(Plain(name, stdout)) && NodeTokens(Plain(name, stdout)) == [name]
  {
    assert NamePrefix(name[1..]) == 0;
    assert EnvMatch(name).None?;
    assert EnvTokens([]) == [];
  }

  lemma WithCdWellFormed(p: seq<Node>)
    requires |p| == 5 && p[0].Command? && GoodWord(p[0]) && Joined(p[0], p[1])
    requires p[2] == Chdir(Some("x")) && p[3] == And
    requires p[4].Command? && GoodWord(p[4]) && p[4].stdout != PipeMark
    ensures WellFormed(p)
  {
    assert "x" != "&&";
    hide EnvMatch;
    forall i | 0 <= i < |p| ensures InPlace(p, i) {
    }
  }

  lemma UnparseTwo(p: seq<Node>, n: Node, op: Node)
    ensures Unparse(p + [n, op]) == Unparse(p) + NodeTokens(n) + NodeTokens(op)
  {
    hide *;
    UnparseLast(p, n);
    UnparseLast(p + [n], op);
    assert p + [n] + [op] == p + [n, op];
  }

  lemma FiveTokens(p: seq<Node>)
    requires |p| == 5
    ensures Unparse(p) == NodeTokens(p[0]) + NodeTokens(p[1]) + NodeTokens(p[2]) + NodeTokens(p[3]) + NodeTokens(p[4])
  {
    ConsumeNone(START);
    hide *;
    var front := [] + [p[0], p[1]];
    UnparseTwo([], p[0], p[1]);
    UnparseTwo(front, p[2], p[3]);
    UnparseLast(front + [p[2], p[3]], p[4]);
    assert front + [p[2], p[3]] + [p[4]] == p;
    assert [] + NodeTokens(p[0]) == NodeTokens(p[0]);
  }

  lemma SignTokens()
    ensures NodeTokens(Or) == ["||"] && NodeTokens(Pipe) == ["|"] && NodeTokens(And) == ["&&"]
    ensures NodeTokens(Chdir(Some("x"))) == ["cd", "x"]
  {
  }

  lemma ParsesWithCd(op: Node)
    requires op == Or || op == Pipe
    ensures WellFormed(WithCd(op))
    ensures ParseTokens(["a", if op == Or then "||" else "|", "cd", "x", "&&", "b"]) == Some(WithCd(op))
  {
    var p := WithCd(op);
    GoodPlain("a", p[0].stdout);
    GoodPlain("b", Inherit);
    SignTokens();
    hide EnvMatch, GoodWord, WellFormed, ParseTokens, Unparse, NodeTokens;
    WithCdWellFormed(p);
    WellFormedComesBack(p);
    FiveTokens(p);
    SixTokens(NodeTokens(op));
  }

  lemma SixTokens(sign: seq<string>)
    requires |sign| == 1
    ensures ["a"] + sign + ["cd", "x"] + ["&&"] + ["b"] == ["a", sign[0], "cd", "x", "&&", "b"]
  {
  }

  // The program and POSIX at a || cd x && b, when all succeed.
  lemma SkippedCdRuns(p: seq<Node>, home: string)
    requires WellFormed(p) && |p| == 5 && p[0].Command? && p[1] == Or && p[3] == And && p[4].Command?
    ensures Eval(Build(p, ".", []), Always(0), 0) == (Returned(0), [Job(p[0], ".", false)])
    ensures Execute(p, home, ".", false, Always(0), 0)
         == (Returned(0), [Job(p[0], ".", false), Job(p[4], ".", false)])
  {
    WordFirst(p);
    WordFirst(p[2..]);
    assert p[2..][2..] == p[4..];
    hide WellFormed, GoodWord, Build, Eval;
    CommandStep(p, ".", [], Always(0), 0);
    assert [] + [Job(p[0], ".", false)] == [Job(p[0], ".", false)];
    assert Execute(p[4..], home, ".", false, Always(0), 1) == (Returned(0), [Job(p[4], ".", false)]);
    assert Skip(0, p[2..], home, ".", Always(0), 1) == Execute(p[4..], home, ".", false, Always(0), 1);
    hide Execute, Skip;
    var rest := ExecuteRest(p, home, ".", [], Always(0), 0);
    assert [Job(p[0], ".", false)] + rest.1 == [Job(p[0], ".", false), Job(p[4], ".", false)];
  }

  // a || cd x && b, where a succeeds: POSIX passes over the cd and runs b.
  lemma SkippedCd(home: string)
    ensures var a, b := Job(Plain("a", Inherit), ".", false), Job(Plain("b", Inherit), ".", false);
      && ParseTokens(["a", "||", "cd", "x", "&&", "b"]) == Some(WithCd(Or)) && WellFormed(WithCd(Or))
      && Eval(Build(WithCd(Or), ".", []), Always(0), 0) == (Returned(0), [a])
      && Execute(WithCd(Or), home, ".", false, Always(0), 0) == (Returned(0), [a, b])
  {
    hide WellFormed, ParseTokens, GoodWord, Build, Eval, Execute;
    ParsesWithCd(Or);
    SkippedCdRuns(WithCd(Or), home);
  }

  // The program and POSIX at a | cd x && b, when all succeed.
  lemma PipedCdRuns(p: seq<Node>, home: string)
    requires WellFormed(p) && |p| == 5 && p[0].Command? && p[1] == Pipe && p[3] == And && p[4].Command?
    requires p[2] == Chdir(Some("x"))
    ensures Eval(Build(p, ".", []), Always(0), 0)
         == (Returned(0), [Job(p[0], ".", false), Job(p[4], JoinPath(".", "x"), true)])
    ensures Execute(p, home, ".", false, Always(0), 0)
         == (Returned(0), [Job(p[0], ".", false), Job(p[4], ".", false)])
  {
    WordFirst(p);
    WordFirst(p[2..]);
    assert p[2..][2..] == p[4..];
    hide WellFormed, GoodWord, Build, Eval, JoinPath;
    var jobs := [Job(p[0], ".", false)];
    CommandStep(p, ".", [], Always(0), 0);
    assert [] + jobs == jobs;
    ChdirStep(p[2..], ".", jobs, Always(0), 0);
    CommandStep(p[4..], JoinPath(".", "x"), jobs, Always(0), 0);
    assert jobs + [Job(p[4], JoinPath(".", "x"), true)] == [Job(p[0], ".", false), Job(p[4], JoinPath(".", "x"), true)];
    assert Execute(p[4..], home, ".", false, Always(0), 1) == (Returned(0), [Job(p[4], ".", false)]);
    assert Execute(p[2..], home, ".", true, Always(0), 1) == Execute(p[4..], home, ".", false, Always(0), 1);
    hide Execute;
    var rest := ExecuteRest(p, home, ".", [], Always(0), 0);
    assert jobs + rest.1 == [Job(p[0], ".", false), Job(p[4], ".", false)];
  }

  // a | cd x && b: POSIX runs b where it was, and without a pipe.
  lemma PipedCd(home: string)
    ensures var a, b := Plain("a", PipeMark), Plain("b", Inherit);
      && ParseTokens(["a", "|", "cd", "x", "&&", "b"]) == Some(WithCd(Pipe)) && WellFormed(WithCd(Pipe))
      && Eval(Build(WithCd(Pipe), ".", []), Always(0), 0) == (Returned(0), [Job(a, ".", false), Job(b, "./x", true)])
      && Execute(WithCd(Pipe), home, ".", false, Always(0), 0)
           == (Returned(0), [Job(a, ".", false), Job(b, ".", false)])
  {
    assert JoinPath(".", "x") == "./x";
    hide WellFormed, ParseTokens, GoodWord, Build, Eval, Execute, JoinPath;
    ParsesWithCd(Pipe);
    PipedCdRuns(WithCd(Pipe), home);
  }

  // cd x && a || b mixes the operators and still means the same to both.
  lemma LeadingCd()
    ensures ReadsAsPosix([Chdir(Some("x")), And, Plain("a", Inherit), Or, Plain("b", Inherit)])
  {
  }
}
