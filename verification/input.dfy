/**
 * The handling of a raw input line that the main loops of
 * Assignment01/myshellv4.c and Assignment01/myshellv5.c share: which lines
 * go into the history, the trailing `&` that asks for background execution,
 * and the split of the line on spaces into an argument vector.
 */
module Input {
  import opened Text

  /** `strtok(input, " ")` in both main loops. */
  const ArgDelims: set<char> := {' '}

  /** Only non-empty lines that are not `!` references are recorded. */
  predicate Recordable(line: string)
  {
    |line| > 0 && line[0] != '!'
  }

  /** The trailing-`&` check: the background flag, and the line with that
      one final character removed. The source reads `input[strlen(input)-1]`,
      which is undefined for an empty line, hence the precondition. */
  function StripBackground(line: string): (r: (bool, string))
    requires |line| > 0
    ensures r.0 <==> line[|line| - 1] == '&'
    ensures r.1 + (if r.0 then "&" else "") == line
  {
    if line[|line| - 1] == '&' then (true, line[..|line| - 1]) else (false, line)
  }

  /** The argument vector the main loop builds with its `strtok` loop. */
  function Argv(line: string): seq<string>
  {
    Tokenize(line, ArgDelims)
  }

  /** That `strtok(input, " ")` loop, character by character: spaces end
      the current token, and runs of them yield no empty token. */
  method SplitArgs(line: string) returns (args: seq<string>)
    ensures args == Argv(line)
  {
    args := [];
    var cur: string := [];
    var i := 0;
    while i < |line|
      invariant 0 <= i <= |line|
      invariant args + Scan(line[i..], cur, ArgDelims) == Argv(line)
    {
      assert line[i..][0] == line[i] && line[i..][1..] == line[i + 1..];
      if line[i] == ' ' {
        if cur != [] {
          Associate(args, [cur], Scan(line[i + 1..], [], ArgDelims));
          args := args + [cur];
          cur := [];
        } else {
          assert Scan(line[i..], cur, ArgDelims) == [] + Scan(line[i + 1..], [], ArgDelims);
        }
      } else {
        cur := cur + [line[i]];
      }
      i := i + 1;
    }
    assert line[i..] == [];
    if cur != [] {
      args := args + [cur];
    } else {
      assert args + [] == args;
    }
  }
}
