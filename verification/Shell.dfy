/** The command-line evaluator: a flat loop over the tokens, and the left-associative tree of commands
    it evaluates. */
module Shell {
  import opened Tokens
  import opened Wrappers

  const ENOEXEC := 8
  const ENOMEM := 12
  const SHELL_STOP_COMMAND := 1

  /** What commands can change: the rest of the machine, and the shell's stop state. */
  datatype State<W> = State(world: W, stop: int)

  /** An entry of the command table. */
  datatype Command<!W> = Command(name: string, exec: (State<W>, seq<string>) -> (int, State<W>))

  /** The command table, and expanding settings in a token (None: out of memory). */
  datatype Host<!W> = Host(commands: seq<Command<W>>, expand: (W, string) -> Option<cstring>)

  /** The first command of that name, or the length of the table. */
  function Find<W>(commands: seq<Command<W>>, name: string): (k: nat)
    ensures k <= |commands| && forall j | 0 <= j < k :: commands[j].name != name
    ensures k < |commands| ==> commands[k].name == name
  {
    if commands == [] || commands[0].name == name then 0 else 1 + Find(commands[1..], name)
  }

  /** The command found by its name is run; when there is none, nothing changes. */
  function Run<W>(host: Host<W>, s: State<W>, argv: seq<string>): (int, State<W>)
    requires argv != []
  {
    var k := Find(host.commands, argv[0]);
    if k < |host.commands| then host.commands[k].exec(s, argv) else (-ENOEXEC, s)
  }

  /** When the command after a terminator is processed. */
  datatype Condition = OnFailure | OnSuccess | Always

  predicate Allowed(op: Condition, rc: int) {
    match op
    case OnFailure => rc != 0
    case OnSuccess => rc == 0
    case Always => true
  }

  function Operator(token: string): Option<Condition> {
    if token == "||" then Some(OnFailure)
    else if token == "&&" then Some(OnSuccess)
    else if token == ";" then Some(Always)
    else None
  }

  predicate StartsComment(token: string) {
    token != "" && token[0] == '#'
  }

  // ---------- the meaning of a command line ----------

  /** The tokens before a comment. */
  function Uncommented(tokens: seq<string>): seq<string> {
    if tokens == [] || StartsComment(tokens[0]) then [] else [tokens[0]] + Uncommented(tokens[1..])
  }

  /** A single command, or a tree of commands followed conditionally by one more. */
  datatype Tree = Simple(tokens: seq<string>) | Then(left: Tree, op: Condition, last: seq<string>)

  /** The operators have equal precedence and associate to the left: the last one is the root. */
  function Parse(tokens: seq<string>): Tree {
    ParseAround(tokens, |tokens|)
  }

  /** The tree, when no operator stands at position n or later. */
  function ParseAround(tokens: seq<string>, n: nat): Tree
    requires n <= |tokens|
    decreases n
  {
    if n == 0 then Simple(tokens)
    else if Operator(tokens[n - 1]).Some? then
      Then(ParseAround(tokens[..n - 1], n - 1), Operator(tokens[n - 1]).value, tokens[n..])
    else ParseAround(tokens, n - 1)
  }

  /** The outcome of processing: the state, the status, and whether processing ends here. */
  datatype Outcome<W> = Outcome(state: State<W>, rc: int, halted: bool)

  function ExpandAll<W>(expand: (W, string) -> Option<cstring>, w: W, tokens: seq<string>): Option<seq<cstring>> {
    if tokens == [] then
      Some([])
    else
      match expand(w, tokens[0])
      case None => None
      case Some(arg) =>
        match ExpandAll(expand, w, tokens[1..])
        case None => None
        case Some(args) => Some([arg] + args)
  }

  /** shell_stopped for a command: stopped, and the state it leaves. */
  function StopTest<W>(s: State<W>, rc: int): Outcome<W> {
    Outcome(s.(stop := if s.stop <= SHELL_STOP_COMMAND then 0 else s.stop), rc, s.stop >= SHELL_STOP_COMMAND)
  }

  /** One command: the empty one succeeds, one that cannot be expanded ends the line. */
  function RunCommand<W>(host: Host<W>, s: State<W>, tokens: seq<string>): Outcome<W> {
    match ExpandAll(host.expand, s.world, tokens)
    case None => Outcome(s, -ENOMEM, true)
    case Some(argv) =>
      if argv == [] then StopTest(s, 0) else var (rc, s') := Run(host, s, argv); StopTest(s', rc)
  }

  /** The command after a terminator. */
  function Next<W>(host: Host<W>, r: Outcome<W>, op: Condition, tokens: seq<string>): Outcome<W> {
    if r.halted || !Allowed(op, r.rc) then r else RunCommand(host, r.state, tokens)
  }

  /** Big-step evaluation of the tree. */
  function Eval<W>(host: Host<W>, s: State<W>, tree: Tree): Outcome<W> {
    match tree
    case Simple(tokens) => RunCommand(host, s, tokens)
    case Then(left, op, last) => Next(host, Eval(host, s, left), op, last)
  }

  /** The same tree evaluated as the continuation, under a condition, of what has gone before. */
  function EvalAfter<W>(host: Host<W>, r: Outcome<W>, op: Condition, tree: Tree): Outcome<W> {
    match tree
    case Simple(tokens) => Next(host, r, op, tokens)
    case Then(left, op', last) => Next(host, EvalAfter(host, r, op, left), op', last)
  }

  // ---------- properties of the meaning ----------

  predicate Plain(tokens: seq<string>) {
    forall t :: t in tokens ==> Operator(t).None?
  }

  lemma {:induction false} ParsePlain(tokens: seq<string>, n: nat)
    requires n <= |tokens| && Plain(tokens)
    ensures ParseAround(tokens, n) == Simple(tokens)
  {
    if n > 0 {
      assert tokens[n - 1] in tokens;
      ParsePlain(tokens, n - 1);
    }
  }

  lemma ParseSimple(tokens: seq<string>)
    requires Plain(tokens)
    ensures Parse(tokens) == Simple(tokens)
  {
    ParsePlain(tokens, |tokens|);
  }

  /** The tree of two lines joined by an operator hangs the first below the leftmost command of the
      second: evaluation continues from the first line's outcome. */
  lemma {:induction false} JoinedAround<W>(host: Host<W>, r: Outcome<W>, op: Condition, a: seq<string>, t: string,
                                           b: seq<string>, n: nat)
    requires n <= |b| && Operator(t).Some?
    ensures var whole := a + [t] + b;
            EvalAfter(host, r, op, ParseAround(whole, |a| + 1 + n))
            == EvalAfter(host, EvalAfter(host, r, op, Parse(a)), Operator(t).value, ParseAround(b, n))
    decreases n
  {
    var whole := a + [t] + b;
    if n == 0 {
      assert whole[|a|] == t && whole[..|a|] == a && whole[|a| + 1..] == b;
    } else {
      assert whole[|a| + n] == b[n - 1];
      if Operator(b[n - 1]).Some? {
        assert whole[..|a| + n] == a + [t] + b[..n - 1] && whole[|a| + 1 + n..] == b[n..];
        JoinedAround(host, r, op, a, t, b[..n - 1], n - 1);
      } else {
        JoinedAround(host, r, op, a, t, b, n - 1);
      }
    }
  }

  lemma Joined<W>(host: Host<W>, r: Outcome<W>, op: Condition, a: seq<string>, t: string, b: seq<string>)
    requires Operator(t).Some?
    ensures EvalAfter(host, r, op, Parse(a + [t] + b))
            == EvalAfter(host, EvalAfter(host, r, op, Parse(a)), Operator(t).value, Parse(b))
  {
    JoinedAround(host, r, op, a, t, b, |b|);
  }

  lemma {:induction false} EvalIsEvalAfter<W>(host: Host<W>, s: State<W>, rc: int, tree: Tree)
    ensures Eval(host, s, tree) == EvalAfter(host, Outcome(s, rc, false), Always, tree)
  {
    if tree.Then? {
      EvalIsEvalAfter(host, s, rc, tree.left);
    }
  }

  lemma {:induction false} HaltedStays<W>(host: Host<W>, r: Outcome<W>, op: Condition, tree: Tree)
    requires r.halted
    ensures EvalAfter(host, r, op, tree) == r
  {
    if tree.Then? {
      HaltedStays(host, r, op, tree.left);
    }
  }

  /** Two lines joined by an operator: the first is evaluated; the second continues from its outcome. */
  lemma JoinedLines<W>(host: Host<W>, s: State<W>, a: seq<string>, t: string, b: seq<string>)
    requires Operator(t).Some?
    ensures Eval(host, s, Parse(a + [t] + b))
            == EvalAfter(host, Eval(host, s, Parse(a)), Operator(t).value, Parse(b))
  {
    EvalIsEvalAfter(host, s, 0, Parse(a + [t] + b));
    EvalIsEvalAfter(host, s, 0, Parse(a));
    Joined(host, Outcome(s, 0, false), Always, a, t, b);
  }

  /** Lines separated by a semicolon are evaluated one after the other, unless the first one ends early. */
  lemma Sequenced<W>(host: Host<W>, s: State<W>, a: seq<string>, b: seq<string>)
    ensures var first := Eval(host, s, Parse(a));
            Eval(host, s, Parse(a + [";"] + b)) == if first.halted then first else Eval(host, first.state, Parse(b))
  {
    var first := Eval(host, s, Parse(a));
    JoinedLines(host, s, a, ";", b);
    if first.halted {
      HaltedStays(host, first, Always, Parse(b));
    } else {
      EvalIsEvalAfter(host, first.state, first.rc, Parse(b));
    }
  }

  /** A command after && is processed exactly when what precedes it has returned 0 and not ended the line. */
  lemma AndThen<W>(host: Host<W>, s: State<W>, a: seq<string>, b: seq<string>)
    requires Plain(b)
    ensures var first := Eval(host, s, Parse(a));
            Eval(host, s, Parse(a + ["&&"] + b))
            == if first.halted || first.rc != 0 then first else Eval(host, first.state, Parse(b))
  {
    JoinedLines(host, s, a, "&&", b);
    ParseSimple(b);
  }

  /** A command after || is processed exactly when what precedes it has failed and not ended the line. */
  lemma OrElse<W>(host: Host<W>, s: State<W>, a: seq<string>, b: seq<string>)
    requires Plain(b)
    ensures var first := Eval(host, s, Parse(a));
            Eval(host, s, Parse(a + ["||"] + b))
            == if first.halted || first.rc == 0 then first else Eval(host, first.state, Parse(b))
  {
    JoinedLines(host, s, a, "||", b);
    ParseSimple(b);
  }

  /** The operators are exactly these three. */
  lemma PlainIff(tokens: seq<string>)
    ensures Plain(tokens) <==> "&&" !in tokens && "||" !in tokens && ";" !in tokens
  {
  }

  /** A line without operators, whose tokens expand, is one command: the first of its name in the table is run,
      and the line ends there when it leaves a stop state; an unknown one has no effect but its status. */
  lemma OneCommand<W>(host: Host<W>, s: State<W>, tokens: seq<cstring>, k: nat)
    requires Plain(tokens) && tokens != []
    requires forall i | 0 <= i < |tokens| :: host.expand(s.world, tokens[i]) == Some(tokens[i])
    requires k <= |host.commands| && forall j | 0 <= j < k :: host.commands[j].name != tokens[0]
    requires k < |host.commands| ==> host.commands[k].name == tokens[0]
    ensures var r := Eval(host, s, Parse(tokens));
            if k == |host.commands| then
              r.rc == -ENOEXEC && r.state.world == s.world && (r.halted <==> s.stop >= 1)
            else
              var (rc, s') := host.commands[k].exec(s, tokens);
              && r.rc == rc && r.state.world == s'.world
              && (r.halted <==> s'.stop >= 1) && (s'.stop <= 1 ==> r.state.stop == 0)
  {
    ParseSimple(tokens);
    ExpandSame(host.expand, s.world, tokens);
  }

  lemma {:induction false} ExpandSame<W>(expand: (W, string) -> Option<cstring>, w: W, tokens: seq<cstring>)
    requires forall i | 0 <= i < |tokens| :: expand(w, tokens[i]) == Some(tokens[i])
    ensures ExpandAll(expand, w, tokens) == Some(tokens)
  {
    if tokens != [] {
      assert expand(w, tokens[0]) == Some(tokens[0]);
      ExpandSame(expand, w, tokens[1..]);
      assert [tokens[0]] + tokens[1..] == tokens;
    }
  }

  /** When a token cannot be expanded, the line ends with -ENOMEM and nothing is run. */
  lemma ExpansionFails<W>(host: Host<W>, s: State<W>, tokens: seq<string>, i: nat)
    requires Plain(tokens) && i < |tokens| && host.expand(s.world, tokens[i]).None?
    ensures Eval(host, s, Parse(tokens)) == Outcome(s, -ENOMEM, true)
  {
    ParseSimple(tokens);
    ExpandNone(host.expand, s.world, tokens, i);
  }

  lemma {:induction false} ExpandNone<W>(expand: (W, string) -> Option<cstring>, w: W, tokens: seq<string>, i: nat)
    requires i < |tokens| && expand(w, tokens[i]).None?
    ensures ExpandAll(expand, w, tokens).None?
  {
    if i > 0 {
      ExpandNone(expand, w, tokens[1..], i - 1);
    }
  }

  /** A command that is skipped could not have stopped the line: whoever has not halted has stop state 0. */
  lemma {:induction false} NotStopped<W>(host: Host<W>, s: State<W>, tree: Tree)
    ensures var r := Eval(host, s, tree); !r.halted ==> r.state.stop == 0 && StopTest(r.state, r.rc) == r
  {
    if tree.Then? {
      NotStopped(host, s, tree.left);
    }
  }

  lemma {:induction false} CommentInert(a: seq<string>, t: string, b: seq<string>)
    requires StartsComment(t)
    ensures Uncommented(a + [t] + b) == Uncommented(a)
  {
    if a != [] {
      assert (a + [t] + b)[1..] == a[1..] + [t] + b;
      CommentInert(a[1..], t, b);
    } else {
      assert (a + [t] + b)[0] == t;
    }
  }

  /** A line is cut off at the first token that starts with a hash sign, and only there. */
  lemma {:induction false} CommentCut(a: seq<string>, t: string, b: seq<string>)
    requires forall w | w in a :: w == "" || w[0] != '#'
    ensures Uncommented(a) == a && Uncommented(a + ["#" + t] + b) == a
  {
    CommentInert(a, "#" + t, b);
    if a != [] {
      CommentCut(a[1..], t, b);
    }
  }

  // ---------- the flat loop's arithmetic ----------

  lemma {:induction false} UncommentedFrom(tokens: seq<string>, k: nat)
    requires k <= |Uncommented(tokens)|
    ensures |Uncommented(tokens)| <= |tokens|
    ensures tokens[..k] == Uncommented(tokens)[..k] && Uncommented(tokens)[k..] == Uncommented(tokens[k..])
    ensures k < |Uncommented(tokens)| ==>
              k < |tokens| && !StartsComment(tokens[k]) && tokens[k] == Uncommented(tokens)[k]
    ensures k == |Uncommented(tokens)| ==> k == |tokens| || StartsComment(tokens[k])
  {
    if tokens != [] && !StartsComment(tokens[0]) {
      if k > 0 {
        UncommentedFrom(tokens[1..], k - 1);
        assert tokens[..k] == [tokens[0]] + tokens[1..][..k - 1];
        assert tokens[k..] == tokens[1..][k - 1..];
      } else {
        UncommentedFrom(tokens[1..], 0);
      }
    }
  }

  /** What command_terminator reports: the first operator before any comment, or none. */
  predicate Terminates(tokens: seq<string>, argc: nat, next: Option<Condition>) {
    && argc <= |Uncommented(tokens)|
    && Plain(Uncommented(tokens)[..argc])
    && next == (if argc == |Uncommented(tokens)| then None else Operator(Uncommented(tokens)[argc]))
    && (argc < |Uncommented(tokens)| ==> next.Some?)
  }

  /** The line around its terminator. */
  lemma LineSplit(tokens: seq<string>, argc: nat, next: Option<Condition>)
    requires Terminates(tokens, argc, next)
    ensures var line := Uncommented(tokens);
            && argc <= |line| <= |tokens|
            && tokens[..argc] == line[..argc]
            && Parse(tokens[..argc]) == Simple(tokens[..argc])
            && (next.None? ==> line == tokens[..argc])
            && (next.Some? ==>
                 && argc < |tokens|
                 && Operator(tokens[argc]) == next
                 && line == tokens[..argc] + [tokens[argc]] + Uncommented(tokens[argc + 1..]))
  {
    hide Parse, ParseAround, Operator;
    UncommentedFrom(tokens, argc);
    ParseSimple(tokens[..argc]);
    if next.Some? {
      UncommentedFrom(tokens, argc + 1);
    }
  }

  /** One turn of the loop takes the first command off the line. */
  lemma Turn<W>(host: Host<W>, r: Outcome<W>, op: Condition, tokens: seq<string>, argc: nat, next: Option<Condition>)
    requires Terminates(tokens, argc, next)
    ensures argc <= |tokens|
    ensures var r' := Next(host, r, op, tokens[..argc]);
            && (next.None? || r'.halted ==> EvalAfter(host, r, op, Parse(Uncommented(tokens))) == r')
            && (next.Some? ==>
                 && argc < |tokens|
                 && EvalAfter(host, r, op, Parse(Uncommented(tokens)))
                    == EvalAfter(host, r', next.value, Parse(Uncommented(tokens[argc + 1..]))))
  {
    hide Uncommented, Parse, ParseAround, Operator, Terminates, Next;
    LineSplit(tokens, argc, next);
    var first := tokens[..argc];
    assert EvalAfter(host, r, op, Simple(first)) == Next(host, r, op, first);
    if next.Some? {
      var rest := Uncommented(tokens[argc + 1..]);
      Joined(host, r, op, first, tokens[argc], rest);
      if Next(host, r, op, first).halted {
        HaltedStays(host, Next(host, r, op, first), next.value, Parse(rest));
      }
    }
  }

  lemma {:induction false} ExpandSnoc<W>(expand: (W, string) -> Option<cstring>, w: W, tokens: seq<string>, t: string)
    ensures ExpandAll(expand, w, tokens + [t]) ==
            var front := ExpandAll(expand, w, tokens);
            if front.None? || expand(w, t).None? then None else Some(front.value + [expand(w, t).value])
  {
    if tokens == [] {
      assert tokens + [t] == [t] && [t][1..] == [];
      if expand(w, t).Some? {
        assert [expand(w, t).value] + [] == [] + [expand(w, t).value];
      }
    } else {
      assert (tokens + [t])[0] == tokens[0] && (tokens + [t])[1..] == tokens[1..] + [t];
      ExpandSnoc(expand, w, tokens[1..], t);
      var rest := ExpandAll(expand, w, tokens[1..]);
      if expand(w, tokens[0]).Some? && rest.Some? && expand(w, t).Some? {
        var arg := expand(w, tokens[0]).value;
        assert [arg] + (rest.value + [expand(w, t).value]) == ([arg] + rest.value) + [expand(w, t).value];
      }
    }
  }

  lemma {:induction false} ExpandPrefix<W>(expand: (W, string) -> Option<cstring>, w: W, tokens: seq<string>, i: nat)
    requires i <= |tokens| && ExpandAll(expand, w, tokens[..i]).None?
    ensures ExpandAll(expand, w, tokens).None?
    decreases |tokens| - i
  {
    if i == |tokens| {
      assert tokens[..i] == tokens;
    } else {
      assert tokens[..i + 1] == tokens[..i] + [tokens[i]];
      ExpandSnoc(expand, w, tokens[..i], tokens[i]);
      ExpandPrefix(expand, w, tokens, i + 1);
    }
  }

  // ---------- the code ----------

  /** Reading a C string through a pointer. */
  function StringAt(buf: seq<char>, p: nat): string
    decreases |buf| - p
  {
    if p >= |buf| || buf[p] == NUL then "" else [buf[p]] + StringAt(buf, p + 1)
  }

  lemma {:induction false} StringAtReads(buf: seq<char>, p: nat, w: cstring)
    requires PointsTo(buf, p, w)
    ensures StringAt(buf, p) == w
    decreases |w|
  {
    if w != "" {
      assert buf[p] == buf[p..p + |w|][0];
      assert buf[p + 1..p + |w|] == buf[p..p + |w|][1..] == w[1..];
      StringAtReads(buf, p + 1, w[1..]);
    }
  }

  method Strdup(s: array<char>, ghost text: cstring) returns (copy: array<char>)
    requires Holds(s[..], text)
    ensures fresh(copy) && Holds(copy[..], text)
  {
    var len: nat := 0;
    assert forall k :: 0 <= k < |text| ==> s[k] == s[..][0..|text|][k];
    while s[len] != NUL
      invariant len <= |text|
      decreases |text| - len
    {
      len := len + 1;
    }
    copy := new char[len + 1];
    for i := 0 to len + 1
      invariant forall k :: 0 <= k < i ==> copy[k] == s[k]
    {
      copy[i] := s[i];
    }
    assert copy[..][0..0 + |text|] == text;
  }

  /** Dereferencing the token pointers. */
  method ReadTokens(buf: array<char>, tokens: array<nat>, count: nat, ghost words: seq<string>)
    returns (texts: seq<string>)
    requires count == |words| <= tokens.Length
    requires forall j :: 0 <= j < count ==> NoNul(words[j]) && PointsTo(buf[..], tokens[j], words[j])
    ensures texts == words
  {
    texts := [];
    for j := 0 to count
      invariant texts == words[..j]
    {
      StringAtReads(buf[..], tokens[j], words[j]);
      texts := texts + [StringAt(buf[..], tokens[j])];
    }
  }

  /** Find the end of the first command: an operator, a comment, or the end of the token list. */
  method CommandTerminator(tokens: seq<string>) returns (processNext: Option<Condition>, argc: nat)
    ensures Terminates(tokens, argc, processNext)
  {
    argc := 0;
    while argc < |tokens|
      invariant argc <= |Uncommented(tokens)| && argc <= |tokens|
      invariant Plain(Uncommented(tokens)[..argc])
    {
      UncommentedFrom(tokens, argc);
      if StartsComment(tokens[argc]) {
        break;
      }
      processNext := Operator(tokens[argc]);
      if processNext.Some? {
        return;
      }
      assert Uncommented(tokens)[..argc + 1] == Uncommented(tokens)[..argc] + [tokens[argc]];
      argc := argc + 1;
    }
    UncommentedFrom(tokens, argc);
    processNext := None;
  }

  class CommandShell<W> {
    const host: Host<W>
    var world: W
    var stopState: int

    constructor (host: Host<W>, world: W)
      ensures this.host == host && St() == State(world, 0)
    {
      this.host, this.world, stopState := host, world, 0;
    }

    function St(): State<W>
      reads this
    {
      State(world, stopState)
    }

    /** Test and consume the stop state. */
    method ShellStopped(stop: int) returns (stopped: bool)
      modifies this`stopState
      ensures stopped == (old(stopState) >= stop)
      ensures stopState == if old(stopState) <= stop then 0 else old(stopState)
    {
      stopped := stopState >= stop;
      if stopState <= stop {
        stopState := 0;
      }
    }

    /** Expand the tokens one by one; the first failure fails them all. */
    method ExpandTokens(tokens: seq<string>) returns (argv: Option<seq<cstring>>)
      ensures argv == ExpandAll(host.expand, world, tokens)
    {
      var args: seq<cstring> := [];
      for i := 0 to |tokens|
        invariant ExpandAll(host.expand, world, tokens[..i]) == Some(args)
      {
        assert tokens[..i + 1] == tokens[..i] + [tokens[i]];
        ExpandSnoc(host.expand, world, tokens[..i], tokens[i]);
        var arg := host.expand(world, tokens[i]);
        if arg.None? {
          ExpandPrefix(host.expand, world, tokens, i + 1);
          return None;
        }
        args := args + [arg.value];
      }
      assert tokens[..|tokens|] == tokens;
      return Some(args);
    }

    /** An empty command does nothing, successfully; any other is handed to the first implementation of that
        name, and refused when there is none. */
    method Execv(argv: seq<cstring>) returns (rc: int)
      modifies this
      ensures argv == [] ==> rc == 0 && St() == old(St())
      ensures argv != [] ==> (rc, St()) == Run(host, old(St()), argv)
    {
      if argv == [] {
        return 0;
      }
      for k := 0 to |host.commands|
        invariant St() == old(St()) && forall j | 0 <= j < k :: host.commands[j].name != argv[0]
      {
        if host.commands[k].name == argv[0] {
          assert Find(host.commands, argv[0]) == k;
          var (status, after) := host.commands[k].exec(St(), argv);
          rc, world, stopState := status, after.world, after.stop;
          return;
        }
      }
      rc := -ENOEXEC;
    }

    /** Execute a command line: the flat loop evaluates the tree. */
    method System(command: array<char>, ghost text: cstring, memory: bool) returns (rc: int)
      requires Holds(command[..], text)
      modifies this
      ensures !memory ==> rc == -ENOMEM && St() == old(St())
      ensures memory ==> var r := Eval(host, old(St()), Parse(Uncommented(Words(text)))); rc == r.rc && St() == r.state
    {
      var count := SplitCommand(command, null, text);
      var allTokens := new nat[count + 1];
      rc := 0;
      if !memory {
        return -ENOMEM;
      }
      var copy := Strdup(command, text);
      var _ := SplitCommand(copy, allTokens, text);
      var tokens := ReadTokens(copy, allTokens, count, Words(text));

      ghost var goal := Eval(host, St(), Parse(Uncommented(tokens)));
      ghost var r, op := Outcome(St(), 0, false), Always;
      EvalIsEvalAfter(host, St(), 0, Parse(Uncommented(tokens)));
      var process := true;
      while true
        invariant r == Outcome(St(), rc, false)
        invariant process == Allowed(op, rc) && (!process ==> stopState == 0)
        invariant EvalAfter(host, r, op, Parse(Uncommented(tokens))) == goal
        decreases |tokens|
      {
        var processNext, argc := CommandTerminator(tokens);
        Turn(host, r, op, tokens, argc, processNext);
        r := Next(host, r, op, tokens[..argc]);
        if process {
          var argv := ExpandTokens(tokens[..argc]);
          if argv.None? {
            rc := -ENOMEM;
            break;
          }
          rc := Execv(argv.value);
        }
        var stopped := ShellStopped(SHELL_STOP_COMMAND);
        if stopped {
          break;
        }
        if processNext.None? {
          break;
        }
        op := processNext.value;
        process := Allowed(processNext.value, rc);
        tokens := tokens[argc + 1..];
      }
    }
  }
}
