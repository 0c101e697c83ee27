/**
  The pipelines of shellcmd.py: the token machine that parses them, the shape of what it accepts,
  and a canonical way of writing a pipeline back as tokens.
 */
module ShellGrammar {
  import opened Lists

  datatype Target = Inherit | File(name: string) | PipeMark | ToStdout

  datatype Node =
    | Command(argv: seq<string>, stdin: Option<string>, stdout: Target, stderr: Target, envVars: seq<(string, string)>)
    | Chdir(dir: Option<string>)
    | Pipe
    | And
    | Or

  predicate IsOp(n: Node) {
    n.Pipe? || n.And? || n.Or?
  }

  // ---- environment assignments: the pattern ^([a-zA-Z0-9_]+)=(\S+)$

  predicate IsNameChar(c: char) {
    'a' <= c <= 'z' || 'A' <= c <= 'Z' || '0' <= c <= '9' || c == '_'
  }

  predicate IsSpace(c: char) {
    c == ' ' || '\t' <= c <= '\r'
  }

  function NamePrefix(s: string): (n: nat)
    ensures n <= |s| && forall i :: 0 <= i < n ==> IsNameChar(s[i])
    ensures n < |s| ==> !IsNameChar(s[n])
  {
    if s != "" && IsNameChar(s[0]) then 1 + NamePrefix(s[1..]) else 0
  }

  predicate IsValue(v: string) {
    v != "" && forall i :: 0 <= i < |v| ==> !IsSpace(v[i])
  }

  function EnvMatch(token: string): Option<(string, string)> {
    var n := NamePrefix(token);
    if n == 0 || n == |token| || token[n] != '=' then None
    else
      var rest := token[n + 1..];
      var v := if rest != "" && rest[|rest| - 1] == '\n' then rest[..|rest| - 1] else rest;
      if IsValue(v) then Some((token[..n], v)) else None
  }

  // A dictionary that remembers in which order its keys came in.
  function SetVar(env: seq<(string, string)>, name: string, value: string): seq<(string, string)> {
    if env == [] then [(name, value)]
    else if env[0].0 == name then [(name, value)] + env[1..]
    else [env[0]] + SetVar(env[1..], name, value)
  }

  // ---- the token machine

  datatype State = Begin | InCommand | InChdir | InStderr | InStdout | InStdin

  datatype Machine = Machine(state: State, current: Option<Node>, pipeline: seq<Node>, env: seq<(string, string)>)

  const START := Machine(Begin, None, [], [])

  // Ends the current word with an operator.
  function Operator(m: Machine, op: Node): Option<Machine> {
    if m.current.None? then None
    else Some(Machine(Begin, None, m.pipeline + [m.current.value, op], m.env))
  }

  // None stands for an AssertionError.
  function Step(m: Machine, token: string): Option<Machine> {
    match m.state
    case Begin =>
      var assignment := EnvMatch(token);
      if assignment.Some? then Some(m.(env := SetVar(m.env, assignment.value.0, assignment.value.1)))
      else if m.current.Some? then None
      else if token == "cd" then
        if m.env != [] then None else Some(m.(state := InChdir, current := Some(Chdir(None))))
      else Some(m.(state := InCommand, current := Some(Command([token], None, Inherit, Inherit, m.env)), env := []))
    case InChdir =>
      if token == "&&" then Operator(m, And)
      else if m.current.None? || !m.current.value.Chdir? || m.current.value.dir.Some? then None
      else Some(m.(current := Some(Chdir(Some(token)))))
    case _ =>
      if m.current.None? || !m.current.value.Command? then None
      else StepCommand(m, m.current.value, token)
  }

  function StepCommand(m: Machine, c: Node, token: string): Option<Machine>
    requires c.Command? && m.current == Some(c)
  {
    match m.state
    case InStdout =>
      if c.stdout != Inherit then None else Some(m.(state := InCommand, current := Some(c.(stdout := File(token)))))
    case InStderr =>
      if c.stderr != Inherit then None else Some(m.(state := InCommand, current := Some(c.(stderr := File(token)))))
    case InStdin =>
      if c.stdin != None then None else Some(m.(state := InCommand, current := Some(c.(stdin := Some(token)))))
    case _ =>
      if token == ">" then Some(m.(state := InStdout))
      else if token == "2>" then Some(m.(state := InStderr))
      else if token == "2>&1" then
        if c.stderr != Inherit then None else Some(m.(current := Some(c.(stderr := ToStdout))))
      else if token == "<" then Some(m.(state := InStdin))
      else if token == "|" then
        if c.stdout != Inherit then None else Operator(m.(current := Some(c.(stdout := PipeMark))), Pipe)
      else if token == "&&" then Operator(m, And)
      else if token == "||" then Operator(m, Or)
      else Some(m.(current := Some(c.(argv := c.argv + [token]))))
  }

  function Consume(m: Machine, tokens: seq<string>): Option<Machine>
    decreases |tokens|
  {
    if tokens == [] then Some(m)
    else
      match Step(m, tokens[0])
      case None => None
      case Some(m') => Consume(m', tokens[1..])
  }

  // The pipeline that a token list stands for, or None when an assertion fails.
  function ParseTokens(tokens: seq<string>): Option<seq<Node>> {
    match Consume(START, tokens)
    case None => None
    case Some(m) => if m.current.None? then None else Some(m.pipeline + [m.current.value])
  }

  // ---- the shape of an accepted pipeline

  const OPERATORS: set<string> := {">", "2>", "2>&1", "<", "|", "&&", "||"}

  ghost predicate IsName(s: string) {
    s != "" && forall i :: 0 <= i < |s| ==> IsNameChar(s[i])
  }

  ghost predicate GoodEnv(env: seq<(string, string)>) {
    && (forall i :: 0 <= i < |env| ==> IsName(env[i].0) && IsValue(env[i].1))
    && (forall i, j :: 0 <= i < j < |env| ==> env[i].0 != env[j].0)
  }

  ghost predicate GoodWord(n: Node) {
    match n
    case Command(argv, stdin, stdout, stderr, env) =>
      && argv != [] && argv[0] != "cd" && EnvMatch(argv[0]).None?
      && (forall i :: 1 <= i < |argv| ==> argv[i] !in OPERATORS)
      && stdout != ToStdout && stderr != PipeMark && GoodEnv(env)
    case Chdir(dir) => dir != Some("&&")
    case _ => false
  }

  // A pipe follows exactly the commands whose output is the pipe marker; a cd is followed by And.
  ghost predicate Joined(n: Node, op: Node) {
    && IsOp(op)
    && (n.Command? ==> (n.stdout == PipeMark <==> op == Pipe))
    && (n.Chdir? ==> op == And)
  }

  ghost predicate InPlace(p: seq<Node>, i: nat)
    requires i < |p|
  {
    if i % 2 == 0 then GoodWord(p[i]) && (i + 1 < |p| ==> Joined(p[i], p[i + 1])) else IsOp(p[i])
  }

  ghost predicate Alternates(p: seq<Node>) {
    forall i :: 0 <= i < |p| ==> InPlace(p, i)
  }

  // Words and operators in turn, from a word to a word; the last command has no pipe to write to.
  ghost predicate WellFormed(p: seq<Node>) {
    && |p| % 2 == 1 && Alternates(p)
    && (p[|p| - 1].Command? ==> p[|p| - 1].stdout != PipeMark)
  }

  // ---- writing a pipeline back

  function EnvTokens(env: seq<(string, string)>): seq<string> {
    if env == [] then [] else EnvTokens(env[..|env| - 1]) + [env[|env| - 1].0 + "=" + env[|env| - 1].1]
  }

  function Redirections(n: Node): seq<string>
    requires n.Command?
  {
    (if n.stdin.Some? then ["<", n.stdin.value] else [])
    + (if n.stdout.File? then [">", n.stdout.name] else [])
    + (match n.stderr case File(name) => ["2>", name] case ToStdout => ["2>&1"] case _ => [])
  }

  function NodeTokens(n: Node): seq<string> {
    match n
    case Command(argv, _, _, _, env) => EnvTokens(env) + argv + Redirections(n)
    case Chdir(dir) => ["cd"] + if dir.Some? then [dir.value] else []
    case Pipe => ["|"]
    case And => ["&&"]
    case Or => ["||"]
  }

  function Unparse(p: seq<Node>): seq<string> {
    if p == [] then [] else Unparse(p[..|p| - 1]) + NodeTokens(p[|p| - 1])
  }

  // ---- what is accepted is well-formed

  ghost predicate GoodMachine(m: Machine) {
    && |m.pipeline| % 2 == 0 && Alternates(m.pipeline)
    && (match m.state
        case Begin => m.current == None && GoodEnv(m.env)
        case InChdir => m.env == [] && m.current.Some? && m.current.value.Chdir? && GoodWord(m.current.value)
        case _ =>
          && m.env == [] && m.current.Some? && m.current.value.Command?
          && GoodWord(m.current.value) && m.current.value.stdout != PipeMark)
  }

  lemma JoinedOn(p: seq<Node>, n: Node, op: Node)
    requires |p| % 2 == 0 && Alternates(p) && GoodWord(n) && Joined(n, op)
    ensures |p + [n, op]| % 2 == 0 && Alternates(p + [n, op])
  {
    var q := p + [n, op];
    forall i | 0 <= i < |q| ensures InPlace(q, i) {
      if i < |p| {
        assert InPlace(p, i);
      }
    }
  }

  lemma {:induction false} SetVarKeys(env: seq<(string, string)>, name: string, value: string)
    ensures forall p :: p in SetVar(env, name, value) ==> p == (name, value) || p in env
  {
    if env != [] && env[0].0 != name {
      SetVarKeys(env[1..], name, value);
    }
  }

  lemma {:induction false} SetVarGood(env: seq<(string, string)>, name: string, value: string)
    requires GoodEnv(env) && IsName(name) && IsValue(value)
    ensures GoodEnv(SetVar(env, name, value))
  {
    if env != [] && env[0].0 != name {
      SetVarGood(env[1..], name, value);
      SetVarKeys(env[1..], name, value);
      var rest := SetVar(env[1..], name, value);
      forall j | 0 <= j < |rest| ensures rest[j].0 != env[0].0 {
        assert rest[j] in rest;
      }
    }
  }

  lemma EnvMatchParts(token: string)
    requires EnvMatch(token).Some?
    ensures IsName(EnvMatch(token).value.0) && IsValue(EnvMatch(token).value.1)
  {
  }

  lemma StepKeepsGood(m: Machine, token: string)
    requires GoodMachine(m) && Step(m, token).Some?
    ensures GoodMachine(Step(m, token).value)
  {
    hide EnvMatch, SetVar;
    match m.state {
      case Begin =>
        if EnvMatch(token).Some? {
          EnvMatchParts(token);
          SetVarGood(m.env, EnvMatch(token).value.0, EnvMatch(token).value.1);
        }
      case InChdir =>
        if token == "&&" {
          JoinedOn(m.pipeline, m.current.value, And);
        }
      case InCommand =>
        var c := m.current.value;
        if token == "|" && c.stdout == Inherit {
          JoinedOn(m.pipeline, c.(stdout := PipeMark), Pipe);
        } else if token == "&&" {
          JoinedOn(m.pipeline, c, And);
        } else if token == "||" {
          JoinedOn(m.pipeline, c, Or);
        }
      case _ =>
    }
  }

  lemma {:induction false} ConsumeKeepsGood(m: Machine, tokens: seq<string>)
    requires GoodMachine(m) && Consume(m, tokens).Some?
    ensures GoodMachine(Consume(m, tokens).value)
    decreases |tokens|
  {
    if tokens != [] {
      hide Step, GoodMachine;
      StepKeepsGood(m, tokens[0]);
      ConsumeKeepsGood(Step(m, tokens[0]).value, tokens[1..]);
    }
  }

  lemma AcceptedIsWellFormed(tokens: seq<string>)
    requires ParseTokens(tokens).Some?
    ensures WellFormed(ParseTokens(tokens).value)
  {
    ConsumeKeepsGood(START, tokens);
    var m := Consume(START, tokens).value;
    hide Consume;
    var p := m.pipeline + [m.current.value];
    forall i | 0 <= i < |p| ensures InPlace(p, i) {
      if i < |m.pipeline| {
        assert InPlace(m.pipeline, i);
      }
    }
  }

  // ---- what is well-formed can be written and read back

  lemma {:induction false} ConsumeConcat(m: Machine, a: seq<string>, b: seq<string>)
    ensures Consume(m, a + b) == match Consume(m, a) case None => None case Some(m') => Consume(m', b)
    decreases |a|
  {
    if a == [] {
      assert a + b == b;
    } else {
      assert (a + b)[1..] == a[1..] + b;
      if Step(m, a[0]).Some? {
        ConsumeConcat(Step(m, a[0]).value, a[1..], b);
      }
    }
  }

  lemma ConsumeOne(m: Machine, token: string)
    ensures Consume(m, [token]) == Step(m, token)
  {
  }

  lemma NamePrefixIs(name: string, rest: string)
    requires IsName(name) && rest != "" && !IsNameChar(rest[0])
    ensures NamePrefix(name + rest) == |name|
  {
    var s := name + rest;
    assert forall i :: 0 <= i < |name| ==> s[i] == name[i];
    assert s[|name|] == rest[0];
  }

  lemma EnvMatchToken(name: string, value: string)
    requires IsName(name) && IsValue(value)
    ensures EnvMatch(name + "=" + value) == Some((name, value))
  {
    var token := name + "=" + value;
    NamePrefixIs(name, "=" + value);
    assert token == name + ("=" + value);
    assert token[|name| + 1..] == value && token[..|name|] == name;
    assert !IsSpace(value[|value| - 1]);
  }

  lemma {:induction false} SetVarAppends(env: seq<(string, string)>, name: string, value: string)
    requires forall i :: 0 <= i < |env| ==> env[i].0 != name
    ensures SetVar(env, name, value) == env + [(name, value)]
  {
    if env != [] {
      SetVarAppends(env[1..], name, value);
    }
  }

  lemma {:induction false} ConsumeEnv(p: seq<Node>, env: seq<(string, string)>)
    requires GoodEnv(env)
    ensures Consume(Machine(Begin, None, p, []), EnvTokens(env)) == Some(Machine(Begin, None, p, env))
    decreases |env|
  {
    var m := Machine(Begin, None, p, []);
    ConsumeNone(m);
    hide *;
    if env != [] {
      var n := |env| - 1;
      var (name, value) := env[n];
      GoodEnvParts(env);
      ConsumeEnv(p, env[..n]);
      ConsumeConcat(m, EnvTokens(env[..n]), [name + "=" + value]);
      ConsumeOne(Machine(Begin, None, p, env[..n]), name + "=" + value);
      StepEnv(p, env[..n], name, value);
      assert env == env[..n] + [(name, value)];
      assert EnvTokens(env) == EnvTokens(env[..n]) + [name + "=" + value] by { EnvTokensStep(env); }
    }
  }

  lemma ConsumeNone(m: Machine)
    ensures Consume(m, []) == Some(m) && EnvTokens([]) == [] && Unparse([]) == []
  {
  }

  lemma EnvTokensStep(env: seq<(string, string)>)
    requires env != []
    ensures EnvTokens(env) == EnvTokens(env[..|env| - 1]) + [env[|env| - 1].0 + "=" + env[|env| - 1].1]
  {
  }

  lemma GoodEnvParts(env: seq<(string, string)>)
    requires GoodEnv(env) && env != []
    ensures var n := |env| - 1;
      && GoodEnv(env[..n]) && IsName(env[n].0) && IsValue(env[n].1)
      && forall i :: 0 <= i < n ==> env[i].0 != env[n].0
  {
  }

  lemma StepEnv(p: seq<Node>, env: seq<(string, string)>, name: string, value: string)
    requires IsName(name) && IsValue(value) && forall i :: 0 <= i < |env| ==> env[i].0 != name
    ensures Step(Machine(Begin, None, p, env), name + "=" + value)
         == Some(Machine(Begin, None, p, env + [(name, value)]))
  {
    EnvMatchToken(name, value);
    SetVarAppends(env, name, value);
    hide EnvMatch, SetVar;
  }

  lemma {:induction false} ConsumeArgs(p: seq<Node>, argv: seq<string>, args: seq<string>, env: seq<(string, string)>)
    requires forall i :: 0 <= i < |args| ==> args[i] !in OPERATORS
    ensures Consume(Machine(InCommand, Some(Command(argv, None, Inherit, Inherit, env)), p, []), args)
         == Some(Machine(InCommand, Some(Command(argv + args, None, Inherit, Inherit, env)), p, []))
    decreases |args|
  {
    if args == [] {
      assert argv + args == argv;
    } else {
      assert args[0] !in OPERATORS;
      ConsumeArgs(p, argv + [args[0]], args[1..], env);
      assert argv + [args[0]] + args[1..] == argv + args;
    }
  }

  lemma ConsumeRedirections(p: seq<Node>, n: Node)
    requires n.Command? && GoodWord(n)
    ensures Consume(Machine(InCommand, Some(Command(n.argv, None, Inherit, Inherit, n.envVars)), p, []),
                    Redirections(n))
         == Some(Machine(InCommand, Some(if n.stdout == PipeMark then n.(stdout := Inherit) else n), p, []))
  {
    var c0 := Command(n.argv, None, Inherit, Inherit, n.envVars);
    var c1 := c0.(stdin := n.stdin);
    var c2 := if n.stdout.File? then c1.(stdout := n.stdout) else c1;
    var c3 := c2.(stderr := n.stderr);
    var r1 := if n.stdin.Some? then ["<", n.stdin.value] else [];
    var r2 := if n.stdout.File? then [">", n.stdout.name] else [];
    var r3 := match n.stderr case File(name) => ["2>", name] case ToStdout => ["2>&1"] case _ => [];
    Redirect(p, c0, r1, c1);
    Redirect(p, c1, r2, c2);
    Redirect(p, c2, r3, c3);
    var m := Machine(InCommand, Some(c0), p, []);
    ConsumeConcat(m, r1, r2);
    ConsumeConcat(m, r1 + r2, r3);
  }

  lemma Redirect(p: seq<Node>, c: Node, tokens: seq<string>, c': Node)
    requires c.Command?
    requires || (tokens == [] && c' == c)
             || (exists f :: tokens == ["<", f] && c.stdin == None && c' == c.(stdin := Some(f)))
             || (exists f :: tokens == [">", f] && c.stdout == Inherit && c' == c.(stdout := File(f)))
             || (exists f :: tokens == ["2>", f] && c.stderr == Inherit && c' == c.(stderr := File(f)))
             || (tokens == ["2>&1"] && c.stderr == Inherit && c' == c.(stderr := ToStdout))
    ensures Consume(Machine(InCommand, Some(c), p, []), tokens) == Some(Machine(InCommand, Some(c'), p, []))
  {
    var m := Machine(InCommand, Some(c), p, []);
    if |tokens| == 2 {
      assert tokens == [tokens[0]] + [tokens[1]];
      ConsumeConcat(m, [tokens[0]], [tokens[1]]);
      ConsumeOne(m, tokens[0]);
      ConsumeOne(Step(m, tokens[0]).value, tokens[1]);
    } else if |tokens| == 1 {
      ConsumeOne(m, tokens[0]);
    }
  }

  // Reading the tokens of a word at the beginning of one; the pipe marker is set by the operator.
  lemma ConsumeWord(p: seq<Node>, n: Node)
    requires GoodWord(n)
    ensures Consume(Machine(Begin, None, p, []), NodeTokens(n)) ==
              if n.Chdir? then Some(Machine(InChdir, Some(n), p, []))
              else Some(Machine(InCommand, Some(if n.stdout == PipeMark then n.(stdout := Inherit) else n), p, []))
  {
    var m := Machine(Begin, None, p, []);
    match n {
      case Chdir(dir) =>
        assert EnvMatch("cd").None?;
        ConsumeOne(m, "cd");
        if dir.Some? {
          ConsumeConcat(m, ["cd"], [dir.value]);
          ConsumeOne(Step(m, "cd").value, dir.value);
        }
      case Command(argv, _, _, _, env) =>
        ConsumeCommand(p, n);
    }
  }

  lemma ConsumeCommand(p: seq<Node>, n: Node)
    requires n.Command? && GoodWord(n)
    ensures Consume(Machine(Begin, None, p, []), NodeTokens(n))
         == Some(Machine(InCommand, Some(if n.stdout == PipeMark then n.(stdout := Inherit) else n), p, []))
  {
    var m := Machine(Begin, None, p, []);
    var name, args := [n.argv[0]], n.argv[1..];
    var m1 := Machine(Begin, None, p, n.envVars);
    var m2 := Machine(InCommand, Some(Command(name, None, Inherit, Inherit, n.envVars)), p, []);
    var m3 := Machine(InCommand, Some(Command(n.argv, None, Inherit, Inherit, n.envVars)), p, []);
    assert Step(m1, n.argv[0]) == Some(m2);
    hide Step;
    ConsumeEnv(p, n.envVars);
    ConsumeOne(m1, n.argv[0]);
    ConsumeArgs(p, name, args, n.envVars);
    assert name + args == n.argv;
    ConsumeRedirections(p, n);
    assert NodeTokens(n) == EnvTokens(n.envVars) + (name + (args + Redirections(n)));
    hide Consume, NodeTokens;
    ConsumeConcat(m, EnvTokens(n.envVars), name + (args + Redirections(n)));
    ConsumeConcat(m1, name, args + Redirections(n));
    ConsumeConcat(m2, args, Redirections(n));
  }

  lemma ConsumeOperator(p: seq<Node>, n: Node, op: Node)
    requires GoodWord(n) && Joined(n, op)
    ensures Consume(Machine(Begin, None, p, []), NodeTokens(n) + NodeTokens(op))
         == Some(Machine(Begin, None, p + [n, op], []))
  {
    ConsumeWord(p, n);
    var m := Machine(Begin, None, p, []);
    var m' := Consume(m, NodeTokens(n)).value;
    ConsumeConcat(m, NodeTokens(n), NodeTokens(op));
    ConsumeOne(m', NodeTokens(op)[0]);
    assert NodeTokens(op) == [NodeTokens(op)[0]];
    hide Consume;
    assert Step(m', NodeTokens(op)[0]) == Some(Machine(Begin, None, p + [n, op], []));
  }

  lemma UnparseLast(p: seq<Node>, n: Node)
    ensures Unparse(p + [n]) == Unparse(p) + NodeTokens(n)
  {
    assert (p + [n])[..|p|] == p;
  }

  lemma {:induction false} ConsumeFront(p: seq<Node>)
    requires |p| % 2 == 0 && Alternates(p)
    ensures Consume(START, Unparse(p)) == Some(Machine(Begin, None, p, []))
    decreases |p|
  {
    hide *;
    NothingConsumed();
    if p != [] {
      var front, n, op := p[..|p| - 2], p[|p| - 2], p[|p| - 1];
      AlternatesFront(p, |p| - 2);
      ConsumeFront(front);
      ConsumePair(front, n, op);
      assert p == front + [n, op];
    }
  }

  lemma NothingConsumed()
    ensures Consume(START, Unparse([])) == Some(Machine(Begin, None, [], []))
  {
  }

  lemma ConsumePair(front: seq<Node>, n: Node, op: Node)
    requires Consume(START, Unparse(front)) == Some(Machine(Begin, None, front, []))
    requires GoodWord(n) && Joined(n, op)
    ensures Consume(START, Unparse(front + [n, op])) == Some(Machine(Begin, None, front + [n, op], []))
  {
    hide *;
    UnparseLast(front, n);
    UnparseLast(front + [n], op);
    assert front + [n] + [op] == front + [n, op];
    assert Unparse(front + [n, op]) == Unparse(front) + (NodeTokens(n) + NodeTokens(op));
    ConsumeOperator(front, n, op);
    ConsumeConcat(START, Unparse(front), NodeTokens(n) + NodeTokens(op));
  }

  lemma AlternatesFront(p: seq<Node>, k: nat)
    requires Alternates(p) && k < |p| && k % 2 == 0
    ensures Alternates(p[..k]) && GoodWord(p[k]) && (k + 1 < |p| ==> Joined(p[k], p[k + 1]))
  {
    assert InPlace(p, k);
    forall i | 0 <= i < k ensures InPlace(p[..k], i) {
      assert InPlace(p, i);
    }
  }

  lemma WellFormedComesBack(p: seq<Node>)
    requires WellFormed(p)
    ensures ParseTokens(Unparse(p)) == Some(p)
  {
    hide GoodWord, Joined, Consume, Unparse, ParseTokens;
    var front, n := p[..|p| - 1], p[|p| - 1];
    LastWord(p);
    ConsumeFront(front);
    ConsumeLast(front, n);
    assert p == front + [n];
  }

  lemma LastWord(p: seq<Node>)
    requires WellFormed(p)
    ensures var front, n := p[..|p| - 1], p[|p| - 1];
      && |front| % 2 == 0 && Alternates(front)
      && GoodWord(n) && (n.Chdir? || (n.Command? && n.stdout != PipeMark))
  {
    AlternatesFront(p, |p| - 1);
  }

  lemma ConsumeLast(front: seq<Node>, n: Node)
    requires Consume(START, Unparse(front)) == Some(Machine(Begin, None, front, []))
    requires GoodWord(n) && (n.Chdir? || (n.Command? && n.stdout != PipeMark))
    ensures ParseTokens(Unparse(front + [n])) == Some(front + [n])
  {
    hide Unparse, Consume, NodeTokens, GoodWord;
    UnparseLast(front, n);
    ConsumeConcat(START, Unparse(front), NodeTokens(n));
    ConsumeWord(front, n);
  }

  // The well-formed pipelines are exactly those that some token list is parsed to, and each is
  // parsed from its canonical tokens.
  lemma CanonicalTokens(p: seq<Node>)
    ensures WellFormed(p) <==> ParseTokens(Unparse(p)) == Some(p)
    ensures WellFormed(p) <==> exists tokens :: ParseTokens(tokens) == Some(p)
  {
    if WellFormed(p) {
      WellFormedComesBack(p);
    }
    if tokens :| ParseTokens(tokens) == Some(p) {
      AcceptedIsWellFormed(tokens);
    }
  }
}
