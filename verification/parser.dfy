/**
 * The command-line parser of the shell with redirection and a single pipe
 * (Assignment01/myshellv2.c): `parse_command`, the argument vector the
 * second pipeline stage builds from what `strtok` has left, and the choice
 * `main` and `execute_command` make between running nothing, one process
 * with redirections, or two processes joined by a pipe.
 *
 * `strtok`'s hidden position is made explicit: the line is split once into
 * tokens and the parser walks that sequence with an index, so "what strtok
 * would return next" is the remaining suffix of the token sequence.
 */
module Parser {
  import opened Text

  /** `strtok(cmd, " \n")`: the line from fgets still ends in its newline. */
  const CommandDelims: set<char> := {' ', '\n'}

  /** What `parse_command` leaves in `args` and its seven out-parameters,
      plus `afterPipe`: the tokens `strtok` has not yet returned when the
      parse stops, which the second stage goes on to read. */
  datatype Command = Command(
    args: seq<string>,
    inputRedirect: bool,
    inputFile: Option<string>,
    outputRedirect: bool,
    outputFile: Option<string>,
    pipeFlag: bool,
    cmdAfterPipe: Option<string>,
    afterPipe: seq<string>)

  /** The state `parse_command` sets up before reading any token. */
  const Initial := Command([], false, None, false, None, false, None, [])

  predicate IsOperator(t: string)
  {
    t == "<" || t == ">" || t == "|"
  }

  /** The parse of the remaining tokens `toks`, continuing from `c`. */
  function ParseFrom(toks: seq<string>, c: Command): Command
    decreases |toks|
  {
    if toks == [] then c
    else if toks[0] == "<" then
      if |toks| == 1 then c.(inputRedirect := true, inputFile := None)
      else ParseFrom(toks[2..], c.(inputRedirect := true, inputFile := Some(toks[1])))
    else if toks[0] == ">" then
      if |toks| == 1 then c.(outputRedirect := true, outputFile := None)
      else ParseFrom(toks[2..], c.(outputRedirect := true, outputFile := Some(toks[1])))
    else if toks[0] == "|" then
      if |toks| == 1 then c.(pipeFlag := true, cmdAfterPipe := None, afterPipe := [])
      else c.(pipeFlag := true, cmdAfterPipe := Some(toks[1]), afterPipe := toks[2..])
    else ParseFrom(toks[1..], c.(args := c.args + [toks[0]]))
  }

  function Parse(toks: seq<string>): Command
  {
    ParseFrom(toks, Initial)
  }

  /** parse_command: one pass over the tokens of `cmd`, stopping at the
      first `|`. */
  method ParseCommand(cmd: string) returns (c: Command)
    ensures c == Parse(Tokenize(cmd, CommandDelims))
  {
    var toks := Tokenize(cmd, CommandDelims);
    c := Initial;
    var i := 0;
    while i < |toks|
      invariant 0 <= i <= |toks|
      invariant ParseFrom(toks[i..], c) == Parse(toks)
    {
      var token := toks[i];
      assert toks[i..][0] == token;
      if token == "<" {
        c := c.(inputRedirect := true);
        if i + 1 < |toks| {
          c := c.(inputFile := Some(toks[i + 1]));
          assert toks[i..][2..] == toks[i + 2..];
          i := i + 2;
        } else {
          c := c.(inputFile := None);
          i := i + 1;
        }
      } else if token == ">" {
        c := c.(outputRedirect := true);
        if i + 1 < |toks| {
          c := c.(outputFile := Some(toks[i + 1]));
          assert toks[i..][2..] == toks[i + 2..];
          i := i + 2;
        } else {
          c := c.(outputFile := None);
          i := i + 1;
        }
      } else if token == "|" {
        c := c.(pipeFlag := true);
        if i + 1 < |toks| {
          assert toks[i..][2..] == toks[i + 2..];
          c := c.(cmdAfterPipe := Some(toks[i + 1]), afterPipe := toks[i + 2..]);
        } else {
          c := c.(cmdAfterPipe := None, afterPipe := []);
        }
        return;
      } else {
        c := c.(args := c.args + [token]);
        assert toks[i..][1..] == toks[i + 1..];
        i := i + 1;
      }
    }
  }

  // ---------------------------------------------------------------------
  // What a token sequence means, stated without the parser's loop
  // ---------------------------------------------------------------------

  /** A line read as the parser reads it: words and redirections, then how
      the first stage ends. */
  datatype Item = Word(w: string) | InputFrom(path: string) | OutputTo(path: string)

  datatype Ending =
    | EndOfLine
    | DanglingInput           // a final `<` with no file name after it
    | DanglingOutput          // a final `>` with no file name after it
    | PipeTo(next: Option<string>, rest: seq<string>)

  predicate WellFormed(items: seq<Item>, ending: Ending)
  {
    && (forall k :: 0 <= k < |items| && items[k].Word? ==> !IsOperator(items[k].w))
    && (ending.PipeTo? && ending.next.None? ==> ending.rest == [])
  }

  function RenderItem(x: Item): seq<string>
  {
    match x
    case Word(w) => [w]
    case InputFrom(p) => ["<", p]
    case OutputTo(p) => [">", p]
  }

  function Render(items: seq<Item>): seq<string>
  {
    if items == [] then [] else RenderItem(items[0]) + Render(items[1..])
  }

  function RenderEnding(e: Ending): seq<string>
  {
    match e
    case EndOfLine => []
    case DanglingInput => ["<"]
    case DanglingOutput => [">"]
    case PipeTo(next, rest) => if next.Some? then ["|", next.value] + rest else ["|"]
  }

  function Words(items: seq<Item>): seq<string>
  {
    if items == [] then []
    else (if items[0].Word? then [items[0].w] else []) + Words(items[1..])
  }

  /** The file named by the last `<` among `items`, if any. */
  function LastInput(items: seq<Item>): Option<string>
  {
    if items == [] then None
    else if items[|items| - 1].InputFrom? then Some(items[|items| - 1].path)
    else LastInput(items[..|items| - 1])
  }

  /** The file named by the last `>` among `items`, if any. */
  function LastOutput(items: seq<Item>): Option<string>
  {
    if items == [] then None
    else if items[|items| - 1].OutputTo? then Some(items[|items| - 1].path)
    else LastOutput(items[..|items| - 1])
  }

  /** The command a line of this shape denotes. */
  function Meaning(items: seq<Item>, ending: Ending): Command
  {
    Command(
      Words(items),
      LastInput(items).Some? || ending.DanglingInput?,
      if ending.DanglingInput? then None else LastInput(items),
      LastOutput(items).Some? || ending.DanglingOutput?,
      if ending.DanglingOutput? then None else LastOutput(items),
      ending.PipeTo?,
      if ending.PipeTo? then ending.next else None,
      if ending.PipeTo? then ending.rest else [])
  }

  lemma WellFormedCons(x: Item, items: seq<Item>, ending: Ending)
    requires WellFormed(items, ending) && (x.Word? ==> !IsOperator(x.w))
    ensures WellFormed([x] + items, ending)
  {
    assert forall k :: 1 <= k < |[x] + items| ==> ([x] + items)[k] == items[k - 1];
  }

  lemma RenderCons(x: Item, items: seq<Item>)
    ensures Render([x] + items) == RenderItem(x) + Render(items)
  {
    assert ([x] + items)[0] == x && ([x] + items)[1..] == items;
  }

  /** Every token sequence has such a shape. */
  function Decompose(toks: seq<string>): (r: (seq<Item>, Ending))
    ensures WellFormed(r.0, r.1)
    ensures Render(r.0) + RenderEnding(r.1) == toks
    decreases |toks|
  {
    if toks == [] then ([], EndOfLine)
    else if |toks| == 1 && toks[0] == "<" then ([], DanglingInput)
    else if |toks| == 1 && toks[0] == ">" then ([], DanglingOutput)
    else if toks[0] == "|" then
      if |toks| == 1 then ([], PipeTo(None, []))
      else
        assert toks == ["|", toks[1]] + toks[2..];
        ([], PipeTo(Some(toks[1]), toks[2..]))
    else if toks[0] == "<" || toks[0] == ">" then
      DecomposeRedirect(toks, Decompose(toks[2..]))
    else
      DecomposeWord(toks, Decompose(toks[1..]))
  }

  function DecomposeRedirect(toks: seq<string>, tail: (seq<Item>, Ending)): (r: (seq<Item>, Ending))
    requires |toks| >= 2 && (toks[0] == "<" || toks[0] == ">")
    requires WellFormed(tail.0, tail.1) && Render(tail.0) + RenderEnding(tail.1) == toks[2..]
    ensures WellFormed(r.0, r.1)
    ensures Render(r.0) + RenderEnding(r.1) == toks
  {
    var x := if toks[0] == "<" then InputFrom(toks[1]) else OutputTo(toks[1]);
    RenderCons(x, tail.0);
    assert RenderItem(x) == [toks[0], toks[1]];
    assert toks == [toks[0], toks[1]] + toks[2..];
    Associate(RenderItem(x), Render(tail.0), RenderEnding(tail.1));
    WellFormedCons(x, tail.0, tail.1);
    ([x] + tail.0, tail.1)
  }

  function DecomposeWord(toks: seq<string>, tail: (seq<Item>, Ending)): (r: (seq<Item>, Ending))
    requires |toks| >= 1 && !IsOperator(toks[0])
    requires WellFormed(tail.0, tail.1) && Render(tail.0) + RenderEnding(tail.1) == toks[1..]
    ensures WellFormed(r.0, r.1)
    ensures Render(r.0) + RenderEnding(r.1) == toks
  {
    RenderCons(Word(toks[0]), tail.0);
    assert toks == [toks[0]] + toks[1..];
    Associate(RenderItem(Word(toks[0])), Render(tail.0), RenderEnding(tail.1));
    WellFormedCons(Word(toks[0]), tail.0, tail.1);
    ([Word(toks[0])] + tail.0, tail.1)
  }

  lemma {:induction false} LastInputCons(x: Item, items: seq<Item>)
    ensures LastInput([x] + items) ==
            (if LastInput(items).Some? then LastInput(items)
             else if x.InputFrom? then Some(x.path) else None)
    decreases |items|
  {
    if items != [] {
      var xs := [x] + items;
      assert xs[|xs| - 1] == items[|items| - 1];
      assert xs[..|xs| - 1] == [x] + items[..|items| - 1];
      LastInputCons(x, items[..|items| - 1]);
    } else {
      assert [x] + items == [x];
      assert [x][..0] == [];
    }
  }

  lemma {:induction false} LastOutputCons(x: Item, items: seq<Item>)
    ensures LastOutput([x] + items) ==
            (if LastOutput(items).Some? then LastOutput(items)
             else if x.OutputTo? then Some(x.path) else None)
    decreases |items|
  {
    if items != [] {
      var xs := [x] + items;
      assert xs[|xs| - 1] == items[|items| - 1];
      assert xs[..|xs| - 1] == [x] + items[..|items| - 1];
      LastOutputCons(x, items[..|items| - 1]);
    } else {
      assert [x] + items == [x];
      assert [x][..0] == [];
    }
  }

  /** Parsing continued from a state `c` with no pipe seen yet. */
  function Continue(c: Command, m: Command): Command
  {
    Command(
      c.args + m.args,
      c.inputRedirect || m.inputRedirect,
      if m.inputRedirect then m.inputFile else c.inputFile,
      c.outputRedirect || m.outputRedirect,
      if m.outputRedirect then m.outputFile else c.outputFile,
      m.pipeFlag, m.cmdAfterPipe, m.afterPipe)
  }

  /** The parser state after reading one item. */
  function Step(c: Command, x: Item): Command
  {
    match x
    case Word(w) => c.(args := c.args + [w])
    case InputFrom(p) => c.(inputRedirect := true, inputFile := Some(p))
    case OutputTo(p) => c.(outputRedirect := true, outputFile := Some(p))
  }

  lemma ParseFromItem(x: Item, tail: seq<string>, c: Command)
    requires x.Word? ==> !IsOperator(x.w)
    ensures ParseFrom(RenderItem(x) + tail, c) == ParseFrom(tail, Step(c, x))
  {
    var t := RenderItem(x) + tail;
    match x
    case Word(w) =>
      assert t[0] == w && t[1..] == tail;
    case InputFrom(p) =>
      assert t[0] == "<" && t[1] == p && t[2..] == tail;
    case OutputTo(p) =>
      assert t[0] == ">" && t[1] == p && t[2..] == tail;
  }

  lemma ParseFromEnding(ending: Ending, c: Command)
    requires ending.PipeTo? && ending.next.None? ==> ending.rest == []
    requires !c.pipeFlag && c.cmdAfterPipe.None? && c.afterPipe == []
    ensures ParseFrom(RenderEnding(ending), c) == Continue(c, Meaning([], ending))
  {
    assert c.args + [] == c.args;
    match ending
    case EndOfLine =>
    case DanglingInput =>
    case DanglingOutput =>
    case PipeTo(next, rest) =>
      if next.Some? {
        var t := ["|", next.value] + rest;
        assert t[0] == "|" && t[1] == next.value && t[2..] == rest;
      }
  }

  lemma WordsCons(x: Item, items: seq<Item>)
    ensures Words([x] + items) == (if x.Word? then [x.w] else []) + Words(items)
  {
    assert ([x] + items)[0] == x && ([x] + items)[1..] == items;
  }

  lemma ContinueStep(c: Command, x: Item, items: seq<Item>, ending: Ending)
    ensures Continue(Step(c, x), Meaning(items, ending)) == Continue(c, Meaning([x] + items, ending))
  {
    LastInputCons(x, items);
    LastOutputCons(x, items);
    WordsCons(x, items);
    if x.Word? {
      assert c.args + [x.w] + Words(items) == c.args + ([x.w] + Words(items));
    } else {
      assert [] + Words(items) == Words(items);
    }
  }

  lemma {:induction false} ParseFromMeaning(items: seq<Item>, ending: Ending, c: Command)
    requires WellFormed(items, ending)
    requires !c.pipeFlag && c.cmdAfterPipe.None? && c.afterPipe == []
    ensures ParseFrom(Render(items) + RenderEnding(ending), c) == Continue(c, Meaning(items, ending))
    decreases |items|
  {
    if items == [] {
      assert Render(items) + RenderEnding(ending) == RenderEnding(ending);
      ParseFromEnding(ending, c);
    } else {
      var x, rest := items[0], items[1..];
      assert WellFormed(rest, ending) by {
        forall k | 0 <= k < |rest| && rest[k].Word? ensures !IsOperator(rest[k].w) {
          assert rest[k] == items[k + 1];
        }
      }
      assert items == [x] + rest;
      var tail := Render(rest) + RenderEnding(ending);
      assert Render(items) + RenderEnding(ending) == RenderItem(x) + tail;
      ParseFromItem(x, tail, c);
      ParseFromMeaning(rest, ending, Step(c, x));
      ContinueStep(c, x, rest, ending);
    }
  }

  /** The parser agrees with the reference reading of a line: the arguments
      are the words in order; each redirect flag is set iff a `<` (`>`) came
      before any `|`, with the file after the last one, or no file when the
      operator ends the line; the first `|` ends the first stage. */
  lemma ParseMeaning(items: seq<Item>, ending: Ending)
    requires WellFormed(items, ending)
    ensures Parse(Render(items) + RenderEnding(ending)) == Meaning(items, ending)
  {
    ParseFromMeaning(items, ending, Initial);
    assert [] + Words(items) == Words(items);
  }

  /** Hence every token sequence parses to the meaning of its shape. */
  lemma ParseIsMeaning(toks: seq<string>)
    ensures Parse(toks) == Meaning(Decompose(toks).0, Decompose(toks).1)
  {
    ParseMeaning(Decompose(toks).0, Decompose(toks).1);
  }

  lemma {:induction false} WordsAreNotOperators(items: seq<Item>, ending: Ending)
    requires WellFormed(items, ending)
    ensures forall a :: a in Words(items) ==> !IsOperator(a)
    ensures IsSubseq(Words(items), Render(items))
    decreases |items|
  {
    if items != [] {
      var rest := items[1..];
      assert WellFormed(rest, ending) by {
        forall k | 0 <= k < |rest| && rest[k].Word? ensures !IsOperator(rest[k].w) {
          assert rest[k] == items[k + 1];
        }
      }
      WordsAreNotOperators(rest, ending);
      var r := Render(rest);
      assert items == [items[0]] + rest;
      RenderCons(items[0], rest);
      WordsCons(items[0], rest);
      match items[0]
      case Word(w) =>
        assert ([w] + r)[0] == w && ([w] + r)[1..] == r;
        assert ([w] + Words(rest))[0] == w && ([w] + Words(rest))[1..] == Words(rest);
      case InputFrom(p) =>
        assert Words(items) == Words(rest);
        assert Render(items) == ["<", p] + r;
        SubseqSkip(Words(rest), ["<", p], r);
      case OutputTo(p) =>
        assert Words(items) == Words(rest);
        assert Render(items) == [">", p] + r;
        SubseqSkip(Words(rest), [">", p], r);
    }
  }

  /** No recognised operator ever lands in `args`, and the arguments are
      the line's tokens in their order, with the operators and the file
      names after `<` and `>` left out. */
  lemma ArgsAreOrderedNonOperators(toks: seq<string>)
    ensures forall a :: a in Parse(toks).args ==> !IsOperator(a)
    ensures IsSubseq(Parse(toks).args, toks)
  {
    var (items, ending) := Decompose(toks);
    ParseIsMeaning(toks);
    WordsAreNotOperators(items, ending);
    SubseqExtend(Words(items), Render(items), RenderEnding(ending));
  }

  /** Every argument of a parsed line is a non-empty token with no space or
      newline in it, and the arguments keep the line's order. */
  lemma ParsedArgsAreTokens(cmd: string)
    ensures forall a :: a in Parse(Tokenize(cmd, CommandDelims)).args ==>
              IsToken(a, CommandDelims) && !IsOperator(a)
    ensures IsSubseq(Parse(Tokenize(cmd, CommandDelims)).args, Tokenize(cmd, CommandDelims))
  {
    var toks := Tokenize(cmd, CommandDelims);
    ArgsAreOrderedNonOperators(toks);
    SubseqMembers(Parse(toks).args, toks);
    TokensAreClean(cmd, CommandDelims);
  }

  lemma {:induction false} ParseFromPlainWords(toks: seq<string>, c: Command)
    requires forall k :: 0 <= k < |toks| ==> !IsOperator(toks[k])
    ensures ParseFrom(toks, c) == c.(args := c.args + toks)
    decreases |toks|
  {
    if toks == [] {
      assert c.args + toks == c.args;
    } else {
      assert !IsOperator(toks[0]);
      ParseFromPlainWords(toks[1..], c.(args := c.args + [toks[0]]));
      assert c.args + [toks[0]] + toks[1..] == c.args + toks;
    }
  }

  /** A line with no operator tokens: no flag set, no file names, no second
      command, and every token is an argument. */
  lemma ParseWithoutOperators(toks: seq<string>)
    requires forall k :: 0 <= k < |toks| ==> !IsOperator(toks[k])
    ensures Parse(toks) == Command(toks, false, None, false, None, false, None, [])
  {
    ParseFromPlainWords(toks, Initial);
    assert [] + toks == toks;
  }

  /** The first `|` ends the first stage: `args` holds the tokens before it,
      the token after it is the command after the pipe, and every token after
      that is left, uninterpreted, for the second stage. */
  lemma ParseFirstPipe(pre: seq<string>, next: string, rest: seq<string>)
    requires forall k :: 0 <= k < |pre| ==> !IsOperator(pre[k])
    ensures Parse(pre + ["|", next] + rest) ==
            Command(pre, false, None, false, None, true, Some(next), rest)
    ensures SecondStage(Parse(pre + ["|", next] + rest)) == Some([next] + rest)
  {
    var t := ["|", next] + rest;
    assert t[0] == "|" && t[1] == next && t[2..] == rest;
    assert pre + ["|", next] + rest == pre + t;
    ParseFromPlainWordsThen(pre, t, Initial);
    assert [] + pre == pre;
  }

  lemma {:induction false} ParseFromPlainWordsThen(pre: seq<string>, t: seq<string>, c: Command)
    requires forall k :: 0 <= k < |pre| ==> !IsOperator(pre[k])
    ensures ParseFrom(pre + t, c) == ParseFrom(t, c.(args := c.args + pre))
    decreases |pre|
  {
    if pre == [] {
      assert pre + t == t && c.args + pre == c.args;
    } else {
      assert !IsOperator(pre[0]);
      assert (pre + t)[0] == pre[0] && (pre + t)[1..] == pre[1..] + t;
      ParseFromPlainWordsThen(pre[1..], t, c.(args := c.args + [pre[0]]));
      assert c.args + [pre[0]] + pre[1..] == c.args + pre;
    }
  }

  // ---------------------------------------------------------------------
  // Running the parsed command
  // ---------------------------------------------------------------------

  /** The second stage's argument vector: the command after the pipe followed
      by every token `strtok` still had. None when there was no command after
      the `|`: `execvp` is then handed a NULL program name and fails. */
  function SecondStage(c: Command): Option<seq<string>>
  {
    if c.cmdAfterPipe.Some? then Some([c.cmdAfterPipe.value] + c.afterPipe) else None
  }

  /** The counted loop that fills `args_after_pipe` in the second child. */
  method BuildSecondStage(c: Command) returns (argv: Option<seq<string>>)
    ensures argv == SecondStage(c)
    ensures argv.Some? ==> |argv.value| == 1 + |c.afterPipe| && argv.value[1..] == c.afterPipe
  {
    if c.cmdAfterPipe.None? {
      return None;
    }
    var args := [c.cmdAfterPipe.value];
    var j := 0;
    while j < |c.afterPipe|
      invariant 0 <= j <= |c.afterPipe|
      invariant args == [c.cmdAfterPipe.value] + c.afterPipe[..j]
    {
      args := args + [c.afterPipe[j]];
      j := j + 1;
    }
    assert c.afterPipe[..j] == c.afterPipe;
    argv := Some(args);
  }

  /** Where a child's standard input or output comes from. */
  datatype Redirect =
    | Inherited
    | FromFile(path: string)
    | Unnamed                  // the operator had no file name: open(NULL) fails in the child

  datatype Plan =
    | RunNothing
    | Single(argv: seq<string>, stdin: Redirect, stdout: Redirect)
    | Pipeline(first: seq<string>, second: Option<seq<string>>)

  function RedirectOf(flag: bool, file: Option<string>): Redirect
  {
    if !flag then Inherited else if file.Some? then FromFile(file.value) else Unnamed
  }

  /** What `main` and `execute_command` do with a parsed command: nothing
      without a first argument; otherwise two processes when a `|` was seen
      (the redirections are then not applied), else one process with them. */
  function PlanFor(c: Command): (p: Plan)
    ensures p.RunNothing? <==> c.args == []
    ensures p.Pipeline? ==> p.first == c.args && p.second == SecondStage(c)
    ensures p.Single? ==> p.argv == c.args && !c.pipeFlag
    ensures p.Pipeline? <==> c.args != [] && c.pipeFlag
    ensures p.Single? <==> c.args != [] && !c.pipeFlag
    ensures p.Single? ==> (p.stdin.Inherited? <==> !c.inputRedirect)
    ensures p.Single? ==> (p.stdout.Inherited? <==> !c.outputRedirect)
    ensures p.Single? && c.inputRedirect ==>
              p.stdin == if c.inputFile.Some? then FromFile(c.inputFile.value) else Unnamed
    ensures p.Single? && c.outputRedirect ==>
              p.stdout == if c.outputFile.Some? then FromFile(c.outputFile.value) else Unnamed
  {
    if c.args == [] then RunNothing
    else if c.pipeFlag then Pipeline(c.args, SecondStage(c))
    else Single(c.args, RedirectOf(c.inputRedirect, c.inputFile), RedirectOf(c.outputRedirect, c.outputFile))
  }

  /** A line that begins with `|` runs nothing. */
  lemma LeadingPipeRunsNothing(rest: seq<string>)
    ensures PlanFor(Parse(["|"] + rest)).RunNothing?
  {
    assert (["|"] + rest)[0] == "|";
  }

  /** A line holding only redirections runs nothing: each `< f` and `> f`
      consumes its file name, so no argument is left. */
  lemma RedirectionsAloneRunNothing(items: seq<Item>)
    requires forall k :: 0 <= k < |items| ==> !items[k].Word?
    ensures PlanFor(Parse(Render(items))).RunNothing?
  {
    assert Render(items) + RenderEnding(EndOfLine) == Render(items);
    ParseMeaning(items, EndOfLine);
    NoWords(items);
  }

  lemma {:induction false} NoWords(items: seq<Item>)
    requires forall k :: 0 <= k < |items| ==> !items[k].Word?
    ensures Words(items) == []
  {
    if items != [] {
      assert !items[0].Word?;
      NoWords(items[1..]);
    }
  }

  /** On the pipe path the redirection fields play no part. */
  lemma PipelineIgnoresRedirection(c: Command, d: Command)
    requires c.pipeFlag && c.args == d.args
    requires d.pipeFlag && d.cmdAfterPipe == c.cmdAfterPipe && d.afterPipe == c.afterPipe
    ensures PlanFor(c) == PlanFor(d)
  {
  }
}
