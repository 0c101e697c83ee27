/**
  The written form of the pipelines that shellcmd.py accepts: commands with their assignments,
  arguments and redirections in any order, and cds, joined by operators.
 */
module ShellText {
  import opened Lists
  import opened ShellGrammar

  // What can follow the name of a command.
  datatype Item = Arg(word: string) | Input(file: string) | Output(file: string) | Errors(file: string) | ErrorsToOutput

  datatype Phrase =
    | Cmd(assignments: seq<string>, name: string, items: seq<Item>)
    | Cd(dir: Option<string>)

  // At the very end a redirection may lack its file; it is then passed over.
  datatype Text =
    | Last(phrase: Phrase, dangling: seq<string>)
    | More(phrase: Phrase, op: Node, rest: Text)

  // ---- the tokens of a text

  function ItemTokens(item: Item): seq<string> {
    match item
    case Arg(word) => [word]
    case Input(file) => ["<", file]
    case Output(file) => [">", file]
    case Errors(file) => ["2>", file]
    case ErrorsToOutput => ["2>&1"]
  }

  function ItemsTokens(items: seq<Item>): seq<string> {
    if items == [] then [] else ItemTokens(items[0]) + ItemsTokens(items[1..])
  }

  function PhraseTokens(phrase: Phrase): seq<string> {
    match phrase
    case Cmd(assignments, name, items) => assignments + ([name] + ItemsTokens(items))
    case Cd(dir) => ["cd"] + if dir.Some? then [dir.value] else []
  }

  function OpToken(op: Node): string {
    if op.Pipe? then "|" else if op.And? then "&&" else "||"
  }

  function TextTokens(text: Text): seq<string> {
    match text
    case Last(phrase, dangling) => PhraseTokens(phrase) + dangling
    case More(phrase, op, rest) => PhraseTokens(phrase) + ([OpToken(op)] + TextTokens(rest))
  }

  // ---- the nodes of a text

  predicate Free(c: Node, item: Item)
    requires c.Command?
  {
    match item
    case Arg(word) => word !in OPERATORS
    case Input(_) => c.stdin == None
    case Output(_) => c.stdout == Inherit
    case Errors(_) => c.stderr == Inherit
    case ErrorsToOutput => c.stderr == Inherit
  }

  function AddItem(c: Node, item: Item): (c': Node)
    requires c.Command?
    ensures c'.Command?
  {
    match item
    case Arg(word) => c.(argv := c.argv + [word])
    case Input(file) => c.(stdin := Some(file))
    case Output(file) => c.(stdout := File(file))
    case Errors(file) => c.(stderr := File(file))
    case ErrorsToOutput => c.(stderr := ToStdout)
  }

  // None when a redirection is given twice or an argument is an operator.
  function AddItems(c: Node, items: seq<Item>): (r: Option<Node>)
    requires c.Command?
    ensures r.Some? ==> r.value.Command?
    decreases |items|
  {
    if items == [] then Some(c)
    else if Free(c, items[0]) then AddItems(AddItem(c, items[0]), items[1..])
    else None
  }

  predicate AllAssignments(assignments: seq<string>) {
    forall i :: 0 <= i < |assignments| ==> EnvMatch(assignments[i]).Some?
  }

  function Environment(assignments: seq<string>): seq<(string, string)>
    requires AllAssignments(assignments)
  {
    if assignments == [] then []
    else
      var n := |assignments| - 1;
      var (name, value) := EnvMatch(assignments[n]).value;
      SetVar(Environment(assignments[..n]), name, value)
  }

  function PhraseNode(phrase: Phrase): (r: Option<Node>)
    ensures r.Some? ==> if phrase.Cd? then r.value == Chdir(phrase.dir) else r.value.Command?
  {
    match phrase
    case Cmd(assignments, name, items) =>
      if AllAssignments(assignments) && EnvMatch(name).None? && name != "cd"
      then AddItems(Command([name], None, Inherit, Inherit, Environment(assignments)), items)
      else None
    case Cd(dir) => if dir == Some("&&") then None else Some(Chdir(dir))
  }

  predicate MayDangle(phrase: Phrase, dangling: seq<string>) {
    dangling == [] || (phrase.Cmd? && (dangling == [">"] || dangling == ["2>"] || dangling == ["<"]))
  }

  // A command with an operator behind it: a pipe takes its output.
  function Ended(n: Node, op: Node): Option<Node> {
    if n.Chdir? then (if op.And? then Some(n) else None)
    else if n.Command? && op.Pipe? then (if n.stdout == Inherit then Some(n.(stdout := PipeMark)) else None)
    else if n.Command? && (op.And? || op.Or?) then Some(n)
    else None
  }

  function Nodes(text: Text): Option<seq<Node>> {
    match text
    case Last(phrase, dangling) =>
      if PhraseNode(phrase).Some? && MayDangle(phrase, dangling) then Some([PhraseNode(phrase).value]) else None
    case More(phrase, op, rest) =>
      if PhraseNode(phrase).None? || Ended(PhraseNode(phrase).value, op).None? || Nodes(rest).None? then None
      else Some([Ended(PhraseNode(phrase).value, op).value, op] + Nodes(rest).value)
  }

  // ---- what a command holds

  function OwnWords(item: Item): seq<string> {
    if item.Arg? then [item.word] else []
  }

  // The arguments, in order.
  function Words(items: seq<Item>): seq<string> {
    if items == [] then [] else OwnWords(items[0]) + Words(items[1..])
  }

  ghost predicate ErrorItem(item: Item) {
    item.Errors? || item.ErrorsToOutput?
  }

  // No argument is an operator, and each kind of redirection is given at most once.
  ghost predicate GoodItems(items: seq<Item>) {
    && (forall i :: 0 <= i < |items| && items[i].Arg? ==> items[i].word !in OPERATORS)
    && (forall i, j :: 0 <= i < j < |items| ==>
          && !(items[i].Input? && items[j].Input?) && !(items[i].Output? && items[j].Output?)
          && !(ErrorItem(items[i]) && ErrorItem(items[j])))
  }

  // The items can be added to what the command has.
  ghost predicate Fits(c: Node, items: seq<Item>)
    requires c.Command?
  {
    && GoodItems(items)
    && (c.stdin != None ==> forall i :: 0 <= i < |items| ==> !items[i].Input?)
    && (c.stdout != Inherit ==> forall i :: 0 <= i < |items| ==> !items[i].Output?)
    && (c.stderr != Inherit ==> forall i :: 0 <= i < |items| ==> !ErrorItem(items[i]))
  }

  ghost predicate HoldsInput(c: Node, items: seq<Item>, r: Node)
    requires c.Command? && r.Command?
  {
    forall f :: r.stdin == Some(f) <==> c.stdin == Some(f) || Input(f) in items
  }

  ghost predicate HoldsOutput(c: Node, items: seq<Item>, r: Node)
    requires c.Command? && r.Command?
  {
    && (forall f :: r.stdout == File(f) <==> c.stdout == File(f) || Output(f) in items)
    && (r.stdout == PipeMark <==> c.stdout == PipeMark) && (r.stdout == ToStdout <==> c.stdout == ToStdout)
  }

  ghost predicate HoldsErrors(c: Node, items: seq<Item>, r: Node)
    requires c.Command? && r.Command?
  {
    && (forall f :: r.stderr == File(f) <==> c.stderr == File(f) || Errors(f) in items)
    && (r.stderr == ToStdout <==> c.stderr == ToStdout || ErrorsToOutput in items)
    && (r.stderr == PipeMark <==> c.stderr == PipeMark)
  }

  // The arguments in order, and each redirection in its own field.
  ghost predicate Holds(c: Node, items: seq<Item>, r: Node)
    requires c.Command? && r.Command?
  {
    && r.argv == c.argv + Words(items) && r.envVars == c.envVars
    && HoldsInput(c, items, r) && HoldsOutput(c, items, r) && HoldsErrors(c, items, r)
  }

  lemma {:induction false} AddItemsIff(c: Node, items: seq<Item>)
    requires c.Command?
    ensures AddItems(c, items).Some? <==> Fits(c, items)
    ensures AddItems(c, items).Some? ==> Holds(c, items, AddItems(c, items).value)
    decreases |items|
  {
    if items == [] {
      assert c.argv + [] == c.argv;
    } else {
      var first, rest := items[0], items[1..];
      FitsStep(c, items);
      if Free(c, first) {
        AddItemsIff(AddItem(c, first), rest);
        if AddItems(c, items).Some? {
          HoldsStep(c, items, AddItems(c, items).value);
        }
      }
      hide Fits, Holds;
    }
  }

  lemma FitsStep(c: Node, items: seq<Item>)
    requires c.Command? && items != []
    ensures Fits(c, items) <==> Free(c, items[0]) && Fits(AddItem(c, items[0]), items[1..])
  {
    var first, rest := items[0], items[1..];
    assert items == [first] + rest;
    if Free(c, first) && Fits(AddItem(c, first), rest) {
      assert forall i :: 0 < i < |items| ==> items[i] == rest[i - 1];
    }
  }

  lemma HoldsStep(c: Node, items: seq<Item>, r: Node)
    requires c.Command? && r.Command? && items != []
    requires Free(c, items[0]) && Holds(AddItem(c, items[0]), items[1..], r) && Fits(AddItem(c, items[0]), items[1..])
    ensures Holds(c, items, r)
  {
    hide HoldsInput, HoldsOutput, HoldsErrors, Fits, Words, AddItem, Free;
    WordsStep(c, items);
    InputStep(c, items, r);
    OutputStep(c, items, r);
    ErrorsStep(c, items, r);
  }

  lemma WordsStep(c: Node, items: seq<Item>)
    requires c.Command? && items != []
    ensures AddItem(c, items[0]).argv + Words(items[1..]) == c.argv + Words(items)
    ensures AddItem(c, items[0]).envVars == c.envVars
  {
    AddItemWords(c, items[0]);
    hide AddItem, OwnWords;
    WordsAssociate(c.argv, OwnWords(items[0]), Words(items[1..]));
  }

  lemma AddItemWords(c: Node, item: Item)
    requires c.Command?
    ensures AddItem(c, item).argv == c.argv + OwnWords(item) && AddItem(c, item).envVars == c.envVars
  {
    assert c.argv + [] == c.argv;
  }

  lemma WordsAssociate(a: seq<string>, b: seq<string>, c: seq<string>)
    ensures a + b + c == a + (b + c)
  {
  }

  lemma FirstOrRest(items: seq<Item>)
    requires items != []
    ensures forall x :: x in items <==> x == items[0] || x in items[1..]
  {
    assert items == [items[0]] + items[1..];
  }

  lemma InputStep(c: Node, items: seq<Item>, r: Node)
    requires c.Command? && r.Command? && items != []
    requires Free(c, items[0]) && HoldsInput(AddItem(c, items[0]), items[1..], r)
             && Fits(AddItem(c, items[0]), items[1..])
    ensures HoldsInput(c, items, r)
  {
    FirstOrRest(items);
    hide GoodItems;
  }

  lemma OutputStep(c: Node, items: seq<Item>, r: Node)
    requires c.Command? && r.Command? && items != []
    requires Free(c, items[0]) && HoldsOutput(AddItem(c, items[0]), items[1..], r)
             && Fits(AddItem(c, items[0]), items[1..])
    ensures HoldsOutput(c, items, r)
  {
    FirstOrRest(items);
    hide GoodItems;
  }

  lemma ErrorsStep(c: Node, items: seq<Item>, r: Node)
    requires c.Command? && r.Command? && items != []
    requires Free(c, items[0]) && HoldsErrors(AddItem(c, items[0]), items[1..], r)
             && Fits(AddItem(c, items[0]), items[1..])
    ensures HoldsErrors(c, items, r)
  {
    FirstOrRest(items);
    hide GoodItems;
  }

  // ---- assignments

  // A token is an assignment exactly when it is a name, an equals sign and a value, and perhaps a newline.
  lemma EnvMatchIff(token: string, name: string, value: string)
    ensures EnvMatch(token) == Some((name, value))
       <==> IsName(name) && IsValue(value) && (token == name + "=" + value || token == name + "=" + value + "\n")
  {
    if EnvMatch(token) == Some((name, value)) {
      var rest := token[|name| + 1..];
      assert token == name + "=" + rest;
      if rest != value {
        assert rest == value + "\n";
        assert name + "=" + rest == name + "=" + value + "\n";
      }
    }
    if IsName(name) && IsValue(value) {
      if token == name + "=" + value {
        EnvMatchToken(name, value);
      }
      if token == name + "=" + value + "\n" {
        EnvMatchNewline(name, value);
      }
    }
  }

  lemma EnvMatchNewline(name: string, value: string)
    requires IsName(name) && IsValue(value)
    ensures EnvMatch(name + "=" + value + "\n") == Some((name, value))
  {
    var token := name + "=" + value + "\n";
    NamePrefixIs(name, "=" + value + "\n");
    assert token == name + ("=" + value + "\n");
    assert token[|name| + 1..] == value + "\n" && token[..|name|] == name;
    assert (value + "\n")[..|value|] == value;
  }

  // The value that the last assignment to a name gives it.
  ghost function Assigned(assignments: seq<string>, name: string): Option<string>
    requires AllAssignments(assignments)
  {
    if assignments == [] then None
    else
      var n := |assignments| - 1;
      if EnvMatch(assignments[n]).value.0 == name then Some(EnvMatch(assignments[n]).value.1)
      else Assigned(assignments[..n], name)
  }

  // The variables of a command are the names that are assigned, each once and with its last value.
  lemma {:induction false} EnvironmentIs(assignments: seq<string>)
    requires AllAssignments(assignments)
    ensures forall n, v :: (n, v) in Environment(assignments) <==> Assigned(assignments, n) == Some(v)
    ensures GoodEnv(Environment(assignments))
  {
    NothingAssigned();
    hide *;
    if assignments != [] {
      var front, last := assignments[..|assignments| - 1], assignments[|assignments| - 1];
      LastAssignment(assignments);
      var (name, value) := EnvMatch(last).value;
      EnvironmentIs(front);
      EnvMatchParts(last);
      SetVarGood(Environment(front), name, value);
      forall n, v ensures (n, v) in Environment(assignments) <==> Assigned(assignments, n) == Some(v) {
        SetVarLooksUp(Environment(front), name, value, n, v);
        LastAssigned(assignments, n);
      }
    }
  }

  lemma NothingAssigned()
    ensures AllAssignments([]) && Environment([]) == [] && GoodEnv([]) && forall n :: Assigned([], n) == None
  {
  }

  lemma LastAssignment(assignments: seq<string>)
    requires AllAssignments(assignments) && assignments != []
    ensures var front, last := assignments[..|assignments| - 1], assignments[|assignments| - 1];
      && AllAssignments(front) && EnvMatch(last).Some?
      && Environment(assignments) == SetVar(Environment(front), EnvMatch(last).value.0, EnvMatch(last).value.1)
  {
    hide EnvMatch, SetVar;
  }

  lemma LastAssigned(assignments: seq<string>, n: string)
    requires AllAssignments(assignments) && assignments != []
    ensures var front, last := assignments[..|assignments| - 1], assignments[|assignments| - 1];
      && AllAssignments(front) && EnvMatch(last).Some?
      && Assigned(assignments, n)
           == if EnvMatch(last).value.0 == n then Some(EnvMatch(last).value.1) else Assigned(front, n)
  {
    hide EnvMatch;
  }

  lemma {:induction false} SetVarLooksUp(env: seq<(string, string)>, name: string, value: string, n: string, v: string)
    requires GoodEnv(env)
    ensures (n, v) in SetVar(env, name, value) <==> if n == name then v == value else (n, v) in env
  {
    if env != [] {
      assert env == [env[0]] + env[1..];
      if env[0].0 == name {
        assert forall i :: 0 < i < |env| ==> env[i].0 != name;
      } else {
        SetVarLooksUp(env[1..], name, value, n, v);
      }
    }
  }

  // ---- a text is read as its nodes

  function InCmd(c: Node, p: seq<Node>): Machine {
    Machine(InCommand, Some(c), p, [])
  }

  function AtWord(p: seq<Node>, env: seq<(string, string)>): Machine {
    Machine(Begin, None, p, env)
  }

  // Where the machine stands behind a phrase.
  function Behind(n: Node, p: seq<Node>): Machine {
    if n.Chdir? then Machine(InChdir, Some(n), p, []) else InCmd(n, p)
  }

  lemma ConsumeFirst(m: Machine, tokens: seq<string>)
    requires tokens != []
    ensures Consume(m, tokens) == match Step(m, tokens[0]) case None => None case Some(m') => Consume(m', tokens[1..])
  {
  }

  lemma ReadItem(p: seq<Node>, c: Node, item: Item)
    requires c.Command? && Free(c, item)
    ensures Consume(InCmd(c, p), ItemTokens(item)) == Some(InCmd(AddItem(c, item), p))
  {
    var tokens := ItemTokens(item);
    ConsumeFirst(InCmd(c, p), tokens);
    if |tokens| == 2 {
      assert tokens[1..] == [tokens[1]];
      ConsumeOne(Step(InCmd(c, p), tokens[0]).value, tokens[1]);
    } else {
      ConsumeOne(InCmd(c, p), tokens[0]);
    }
    hide Consume;
  }

  lemma {:induction false} ReadItems(p: seq<Node>, c: Node, items: seq<Item>)
    requires c.Command? && AddItems(c, items).Some?
    ensures Consume(InCmd(c, p), ItemsTokens(items)) == Some(InCmd(AddItems(c, items).value, p))
    decreases |items|
  {
    hide Free, AddItem, ItemTokens, Step;
    if items != [] {
      ReadItem(p, c, items[0]);
      ReadItems(p, AddItem(c, items[0]), items[1..]);
      ConsumeConcat(InCmd(c, p), ItemTokens(items[0]), ItemsTokens(items[1..]));
    }
  }

  lemma {:induction false} ReadAssignments(p: seq<Node>, assignments: seq<string>)
    requires AllAssignments(assignments)
    ensures Consume(AtWord(p, []), assignments) == Some(AtWord(p, Environment(assignments)))
    decreases |assignments|
  {
    if assignments != [] {
      var n := |assignments| - 1;
      assert EnvMatch(assignments[n]).Some?;
      hide EnvMatch, SetVar, Consume;
      ReadAssignments(p, assignments[..n]);
      ConsumeConcat(AtWord(p, []), assignments[..n], [assignments[n]]);
      ConsumeOne(AtWord(p, Environment(assignments[..n])), assignments[n]);
      assert assignments == assignments[..n] + [assignments[n]];
    }
  }

  lemma ReadPhrase(p: seq<Node>, phrase: Phrase)
    requires PhraseNode(phrase).Some?
    ensures Consume(AtWord(p, []), PhraseTokens(phrase)) == Some(Behind(PhraseNode(phrase).value, p))
  {
    match phrase {
      case Cmd(assignments, name, items) => ReadCommand(p, assignments, name, items);
      case Cd(dir) => ReadCd(p, dir);
    }
  }

  lemma ReadCd(p: seq<Node>, dir: Option<string>)
    requires dir != Some("&&")
    ensures Consume(AtWord(p, []), PhraseTokens(Cd(dir))) == Some(Behind(Chdir(dir), p))
  {
    var tokens := PhraseTokens(Cd(dir));
    assert EnvMatch("cd").None?;
    hide EnvMatch;
    ConsumeFirst(AtWord(p, []), tokens);
    if dir.Some? {
      assert tokens[1..] == [dir.value];
      ConsumeOne(Machine(InChdir, Some(Chdir(None)), p, []), dir.value);
    } else {
      assert tokens[1..] == [];
    }
  }

  lemma StartCommand(p: seq<Node>, env: seq<(string, string)>, name: string)
    requires EnvMatch(name).None? && name != "cd"
    ensures Step(AtWord(p, env), name) == Some(InCmd(Command([name], None, Inherit, Inherit, env), p))
  {
  }

  lemma ReadCommand(p: seq<Node>, assignments: seq<string>, name: string, items: seq<Item>)
    requires PhraseNode(Cmd(assignments, name, items)).Some?
    ensures Consume(AtWord(p, []), PhraseTokens(Cmd(assignments, name, items)))
         == Some(InCmd(PhraseNode(Cmd(assignments, name, items)).value, p))
  {
    var env := Environment(assignments);
    var c := Command([name], None, Inherit, Inherit, env);
    StartCommand(p, env, name);
    assert AddItems(c, items).Some?;
    hide EnvMatch, Step, Consume, AddItems, ItemsTokens, Environment, AllAssignments;
    ReadAssignments(p, assignments);
    ReadItems(p, c, items);
    ConsumeConcat(AtWord(p, []), assignments, [name] + ItemsTokens(items));
    ConsumeFirst(AtWord(p, env), [name] + ItemsTokens(items));
    assert ([name] + ItemsTokens(items))[1..] == ItemsTokens(items);
  }

  lemma OperatorStep(n: Node, op: Node, p: seq<Node>)
    requires Ended(n, op).Some?
    ensures Step(Behind(n, p), OpToken(op)) == Some(AtWord(p + [Ended(n, op).value, op], []))
  {
  }

  lemma DanglingStep(n: Node, dangling: string, p: seq<Node>)
    requires n.Command? && (dangling == ">" || dangling == "2>" || dangling == "<")
    ensures Step(Behind(n, p), dangling).Some?
    ensures var m := Step(Behind(n, p), dangling).value; m.current == Some(n) && m.pipeline == p
  {
  }

  lemma ReadLast(p: seq<Node>, phrase: Phrase, dangling: seq<string>)
    requires PhraseNode(phrase).Some? && MayDangle(phrase, dangling)
    ensures Consume(AtWord(p, []), PhraseTokens(phrase) + dangling).Some?
    ensures var m := Consume(AtWord(p, []), PhraseTokens(phrase) + dangling).value;
      m.current == PhraseNode(phrase) && m.pipeline == p
  {
    var n := PhraseNode(phrase).value;
    ReadPhrase(p, phrase);
    if dangling == [] {
      assert PhraseTokens(phrase) + dangling == PhraseTokens(phrase);
    } else {
      hide Consume, Step, PhraseTokens, PhraseNode;
      DanglingStep(n, dangling[0], p);
      ConsumeOne(Behind(n, p), dangling[0]);
      ConsumeConcat(AtWord(p, []), PhraseTokens(phrase), dangling);
    }
  }

  lemma {:induction false} ReadText(p: seq<Node>, text: Text)
    requires Nodes(text).Some?
    ensures Consume(AtWord(p, []), TextTokens(text)).Some?
    ensures var m := Consume(AtWord(p, []), TextTokens(text)).value;
      m.current.Some? && m.pipeline + [m.current.value] == p + Nodes(text).value
    decreases text
  {
    hide Consume, Step, PhraseTokens, PhraseNode, Ended, OpToken;
    match text {
      case Last(phrase, dangling) => ReadLast(p, phrase, dangling);
      case More(phrase, op, rest) =>
        var n := PhraseNode(phrase).value;
        var p' := p + [Ended(n, op).value, op];
        ReadPhrase(p, phrase);
        OperatorStep(n, op, p);
        ReadText(p', rest);
        ConsumeConcat(AtWord(p, []), PhraseTokens(phrase), [OpToken(op)] + TextTokens(rest));
        ConsumeFirst(Behind(n, p), [OpToken(op)] + TextTokens(rest));
        assert ([OpToken(op)] + TextTokens(rest))[1..] == TextTokens(rest);
        assert p + ([Ended(n, op).value, op] + Nodes(rest).value) == p' + Nodes(rest).value;
    }
  }

  // ---- what is read is a text

  ghost predicate Accepts(m: Machine, tokens: seq<string>) {
    Consume(m, tokens).Some? && Consume(m, tokens).value.current.Some?
  }

  ghost predicate EndsItems(rest: seq<string>) {
    || rest == [] || rest == [">"] || rest == ["2>"] || rest == ["<"]
    || rest[0] == "|" || rest[0] == "&&" || rest[0] == "||"
  }

  lemma FirstItem(p: seq<Node>, c: Node, tokens: seq<string>) returns (item: Item, rest: seq<string>)
    requires c.Command? && Consume(InCmd(c, p), tokens).Some? && !EndsItems(tokens)
    ensures tokens == ItemTokens(item) + rest && Free(c, item)
    ensures Consume(InCmd(c, p), tokens) == Consume(InCmd(AddItem(c, item), p), rest)
  {
    var t := tokens[0];
    ConsumeFirst(InCmd(c, p), tokens);
    if t == ">" || t == "2>" || t == "<" {
      assert |tokens| > 1 by { assert |tokens| == 1 ==> tokens == [t]; }
      ConsumeFirst(Step(InCmd(c, p), t).value, tokens[1..]);
      item := if t == ">" then Output(tokens[1]) else if t == "2>" then Errors(tokens[1]) else Input(tokens[1]);
      rest := tokens[2..];
      assert tokens[1..][1..] == rest;
    } else {
      item := if t == "2>&1" then ErrorsToOutput else Arg(t);
      rest := tokens[1..];
    }
    hide Consume;
    assert tokens == ItemTokens(item) + rest;
  }

  lemma {:induction false} SplitItems(p: seq<Node>, c: Node, tokens: seq<string>)
    returns (items: seq<Item>, rest: seq<string>)
    requires c.Command? && Consume(InCmd(c, p), tokens).Some?
    ensures tokens == ItemsTokens(items) + rest && AddItems(c, items).Some? && EndsItems(rest)
    ensures Consume(InCmd(c, p), tokens) == Consume(InCmd(AddItems(c, items).value, p), rest)
    decreases |tokens|
  {
    hide Consume, Step, Free, AddItem, ItemTokens;
    if EndsItems(tokens) {
      items, rest := [], tokens;
      assert [] + tokens == tokens;
    } else {
      var item, rest';
      item, rest' := FirstItem(p, c, tokens);
      ItemHasTokens(item);
      var items';
      items', rest := SplitItems(p, AddItem(c, item), rest');
      items := [item] + items';
      assert items[1..] == items';
      assert tokens == ItemTokens(item) + ItemsTokens(items') + rest;
    }
  }

  lemma ItemHasTokens(item: Item)
    ensures ItemTokens(item) != []
  {
  }

  lemma {:induction false} SplitAssignments(p: seq<Node>, done: seq<string>, tokens: seq<string>)
    returns (assignments: seq<string>, rest: seq<string>)
    requires AllAssignments(done) && Accepts(AtWord(p, Environment(done)), tokens)
    ensures AllAssignments(assignments) && assignments + rest == done + tokens
    ensures rest != [] && EnvMatch(rest[0]).None?
    ensures Consume(AtWord(p, Environment(done)), tokens) == Consume(AtWord(p, Environment(assignments)), rest)
    decreases |tokens|
  {
    hide *;
    NothingAccepted(p, Environment(done));
    if EnvMatch(tokens[0]).None? {
      assignments, rest := done, tokens;
    } else {
      var done' := done + [tokens[0]];
      AssignmentStep(p, done, tokens);
      assignments, rest := SplitAssignments(p, done', tokens[1..]);
      assert done' + tokens[1..] == done + tokens;
    }
  }

  lemma AssignmentStep(p: seq<Node>, done: seq<string>, tokens: seq<string>)
    requires AllAssignments(done) && tokens != [] && EnvMatch(tokens[0]).Some?
    ensures AllAssignments(done + [tokens[0]])
    ensures Consume(AtWord(p, Environment(done)), tokens)
         == Consume(AtWord(p, Environment(done + [tokens[0]])), tokens[1..])
    ensures Accepts(AtWord(p, Environment(done)), tokens)
       <==> Accepts(AtWord(p, Environment(done + [tokens[0]])), tokens[1..])
  {
    var t := tokens[0];
    assert (done + [t])[..|done|] == done;
    assert Environment(done + [t]) == SetVar(Environment(done), EnvMatch(t).value.0, EnvMatch(t).value.1);
    ConsumeFirst(AtWord(p, Environment(done)), tokens);
    assert Step(AtWord(p, Environment(done)), t) == Some(AtWord(p, Environment(done + [t])));
    hide Consume, EnvMatch, SetVar, Step, Environment;
  }

  lemma NothingAccepted(p: seq<Node>, env: seq<(string, string)>)
    ensures !Accepts(AtWord(p, env), [])
  {
  }

  lemma NoAssignments(assignments: seq<string>)
    requires AllAssignments(assignments) && Environment(assignments) == []
    ensures assignments == []
  {
    hide EnvMatch;
  }

  // What can stand behind a phrase.
  ghost predicate EndsPhrase(phrase: Phrase, rest: seq<string>) {
    MayDangle(phrase, rest) || (rest != [] && (rest[0] == "&&" || (phrase.Cmd? && (rest[0] == "|" || rest[0] == "||"))))
  }

  lemma SplitPhrase(p: seq<Node>, tokens: seq<string>) returns (phrase: Phrase, rest: seq<string>)
    requires Accepts(AtWord(p, []), tokens)
    ensures PhraseNode(phrase).Some? && tokens == PhraseTokens(phrase) + rest && EndsPhrase(phrase, rest)
    ensures Consume(AtWord(p, []), tokens) == Consume(Behind(PhraseNode(phrase).value, p), rest)
  {
    hide Consume, Step, EnvMatch;
    var assignments, words := SplitAssignments(p, [], tokens);
    assert [] + tokens == tokens;
    if words[0] == "cd" {
      phrase, rest := SplitCd(p, assignments, words);
    } else {
      phrase, rest := SplitCommand(p, assignments, words);
    }
  }

  lemma SplitCommand(p: seq<Node>, assignments: seq<string>, words: seq<string>)
    returns (phrase: Phrase, rest: seq<string>)
    requires AllAssignments(assignments) && words != [] && EnvMatch(words[0]).None? && words[0] != "cd"
    requires Accepts(AtWord(p, Environment(assignments)), words)
    ensures PhraseNode(phrase).Some? && assignments + words == PhraseTokens(phrase) + rest && EndsPhrase(phrase, rest)
    ensures Consume(AtWord(p, Environment(assignments)), words) == Consume(Behind(PhraseNode(phrase).value, p), rest)
  {
    var c := Command([words[0]], None, Inherit, Inherit, Environment(assignments));
    StartCommand(p, Environment(assignments), words[0]);
    ConsumeFirst(AtWord(p, Environment(assignments)), words);
    hide Consume, Step, EnvMatch, Environment, AllAssignments;
    var items;
    items, rest := SplitItems(p, c, words[1..]);
    phrase := Cmd(assignments, words[0], items);
    assert PhraseTokens(phrase) == assignments + ([words[0]] + ItemsTokens(items));
    hide ItemsTokens, PhraseTokens;
    Reassociate(assignments, words, ItemsTokens(items), rest);
  }

  lemma Reassociate(a: seq<string>, words: seq<string>, items: seq<string>, rest: seq<string>)
    requires words != [] && words[1..] == items + rest
    ensures a + words == a + ([words[0]] + items) + rest
  {
    assert words == [words[0]] + (items + rest);
  }

  lemma SplitCd(p: seq<Node>, assignments: seq<string>, words: seq<string>) returns (phrase: Phrase, rest: seq<string>)
    requires AllAssignments(assignments) && words != [] && EnvMatch(words[0]).None? && words[0] == "cd"
    requires Accepts(AtWord(p, Environment(assignments)), words)
    ensures PhraseNode(phrase).Some? && assignments + words == PhraseTokens(phrase) + rest && EndsPhrase(phrase, rest)
    ensures Consume(AtWord(p, Environment(assignments)), words) == Consume(Behind(PhraseNode(phrase).value, p), rest)
  {
    ConsumeFirst(AtWord(p, Environment(assignments)), words);
    assert Environment(assignments) == [];
    NoAssignments(assignments);
    hide EnvMatch, Environment, AllAssignments;
    var m := Machine(InChdir, Some(Chdir(None)), p, []);
    assert Consume(AtWord(p, []), words) == Consume(m, words[1..]);
    assert words == ["cd"] + words[1..] && [] + words == words;
    if |words| == 1 || words[1] == "&&" {
      phrase, rest := Cd(None), words[1..];
    } else {
      phrase, rest := Cd(Some(words[1])), words[2..];
      ConsumeFirst(m, words[1..]);
      assert words[1..][1..] == rest && words == ["cd", words[1]] + rest;
      if rest != [] {
        ConsumeFirst(Machine(InChdir, Some(Chdir(Some(words[1]))), p, []), rest);
      }
    }
    hide Consume;
  }

  lemma OperatorOf(n: Node, p: seq<Node>, token: string) returns (op: Node)
    requires (n.Command? || n.Chdir?) && (token == "|" || token == "&&" || token == "||")
             && Step(Behind(n, p), token).Some?
    requires n.Chdir? ==> token == "&&"
    ensures Ended(n, op).Some? && OpToken(op) == token
  {
    op := if token == "|" then Pipe else if token == "&&" then And else Or;
  }

  lemma {:induction false} SplitText(p: seq<Node>, tokens: seq<string>) returns (text: Text)
    requires Accepts(AtWord(p, []), tokens)
    ensures TextTokens(text) == tokens && Nodes(text).Some?
    decreases |tokens|
  {
    hide Consume, Step, PhraseTokens, PhraseNode, Ended, OpToken;
    var phrase, rest := SplitPhrase(p, tokens);
    if MayDangle(phrase, rest) {
      text := Last(phrase, rest);
    } else {
      var n := PhraseNode(phrase).value;
      ConsumeFirst(Behind(n, p), rest);
      var op := OperatorOf(n, p, rest[0]);
      OperatorStep(n, op, p);
      var more := SplitText(p + [Ended(n, op).value, op], rest[1..]);
      text := More(phrase, op, more);
      assert rest == [rest[0]] + rest[1..];
    }
  }

  // The accepted token lists are those of a text, and are parsed to its nodes.
  lemma AcceptedIff(tokens: seq<string>, p: seq<Node>)
    ensures ParseTokens(tokens) == Some(p) <==> exists text :: TextTokens(text) == tokens && Nodes(text) == Some(p)
  {
    hide Consume, TextTokens, Nodes;
    if ParseTokens(tokens) == Some(p) {
      var text := SplitText([], tokens);
      ReadText([], text);
      assert [] + Nodes(text).value == Nodes(text).value;
    }
    if text :| TextTokens(text) == tokens && Nodes(text) == Some(p) {
      TextIsRead(text, p);
    }
  }

  lemma TextIsRead(text: Text, p: seq<Node>)
    requires Nodes(text) == Some(p)
    ensures ParseTokens(TextTokens(text)) == Some(p)
  {
    hide Consume, TextTokens, Nodes;
    ReadText([], text);
    assert [] + p == p;
  }

  // What the node of a command is: accepted exactly when its assignments are ones, its name is not,
  // no argument is an operator and no redirection is given twice; its variables, arguments and
  // redirections are those of the text, in whatever order they were mixed.
  lemma CommandIs(assignments: seq<string>, name: string, items: seq<Item>)
    ensures PhraseNode(Cmd(assignments, name, items)).Some?
       <==> AllAssignments(assignments) && EnvMatch(name).None? && name != "cd" && GoodItems(items)
    ensures PhraseNode(Cmd(assignments, name, items)).Some? ==>
      CommandMeans(assignments, name, items, PhraseNode(Cmd(assignments, name, items)).value)
  {
    hide EnvMatch, GoodItems, AllAssignments, Environment, GoodEnv, Words;
    if AllAssignments(assignments) {
      var c := Command([name], None, Inherit, Inherit, Environment(assignments));
      AddItemsIff(c, items);
      EnvironmentIs(assignments);
      hide AddItems;
    }
  }

  ghost predicate CommandMeans(assignments: seq<string>, name: string, items: seq<Item>, c: Node)
    requires AllAssignments(assignments)
  {
    && c.Command? && c.argv == [name] + Words(items)
    && (forall n, v :: (n, v) in c.envVars <==> Assigned(assignments, n) == Some(v)) && GoodEnv(c.envVars)
    && (forall f :: c.stdin == Some(f) <==> Input(f) in items)
    && (forall f :: c.stdout == File(f) <==> Output(f) in items) && (c.stdout == Inherit || c.stdout.File?)
    && (forall f :: c.stderr == File(f) <==> Errors(f) in items)
    && (c.stderr == ToStdout <==> ErrorsToOutput in items) && c.stderr != PipeMark
  }

  // A redirection at the very end that lacks its file is accepted, and dropped.
  lemma DanglingDropped(phrase: Phrase, dangling: seq<string>)
    requires PhraseNode(phrase).Some? && MayDangle(phrase, dangling)
    ensures ParseTokens(PhraseTokens(phrase) + dangling) == Some([PhraseNode(phrase).value])
  {
    hide ParseTokens, PhraseNode, PhraseTokens, MayDangle;
    TextIsRead(Last(phrase, dangling), [PhraseNode(phrase).value]);
  }
}
