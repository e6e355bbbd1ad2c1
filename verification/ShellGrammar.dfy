/**
 The shell's grammar (sh.c) on token lists: recursive descent as the parse functions do it, a
 printer that adds parentheses only where the grammar needs them, and the round trip.
 */
module ShellGrammar {

  const MAXARGS: nat := 10

  /** A symbol, with '+' standing for ">>", or a word. */
  datatype Token<W> = Sym(c: char) | Word(w: W)

  datatype Kind = In | Out | Append

  datatype Cmd<W> =
    | Exec(argv: seq<W>)
    | Redir(cmd: Cmd<W>, file: W, kind: Kind)
    | Pipe(left: Cmd<W>, right: Cmd<W>)
    | List(left: Cmd<W>, right: Cmd<W>)
    | Back(cmd: Cmd<W>)

  datatype Problem = MissingFile | MissingParen | Syntax | TooManyArgs | Leftovers

  datatype Parsed<W> = Ok(cmd: Cmd<W>, rest: seq<Token<W>>) | Fail(problem: Problem)

  /** peek: does the next token start with one of these characters? */
  predicate Peeked<W>(ts: seq<Token<W>>, toks: string)
  {
    ts != [] && ts[0].Sym? && (if ts[0].c == '+' then '>' else ts[0].c) in toks
  }

  function KindOf(c: char): Kind
  {
    if c == '<' then In else if c == '+' then Append else Out
  }

  function SymOf(k: Kind): char
  {
    match k
    case In => '<'
    case Out => '>'
    case Append => '+'
  }

  // ---- parsing ----

  /** parseredirs */
  function Redirs<W>(cmd: Cmd<W>, ts: seq<Token<W>>): (r: Parsed<W>)
    ensures r.Ok? ==> |r.rest| <= |ts|
    decreases |ts|
  {
    if !Peeked(ts, "<>") then Ok(cmd, ts)
    else if |ts| < 2 || !ts[1].Word? then Fail(MissingFile)
    else Redirs(Redir(cmd, ts[1].w, KindOf(ts[0].c)), ts[2..])
  }

  /** An exec node under the redirections wrapped around it so far. */
  function WithArg<W>(cmd: Cmd<W>, w: W): Cmd<W>
  {
    match cmd
    case Exec(argv) => Exec(argv + [w])
    case Redir(c, f, k) => Redir(WithArg(c, w), f, k)
    case _ => cmd
  }

  /** parseexec's loop over arguments; ret wraps the exec node that holds argc of them. */
  function Args<W>(ret: Cmd<W>, argc: nat, ts: seq<Token<W>>): (r: Parsed<W>)
    ensures r.Ok? ==> |r.rest| <= |ts|
    decreases |ts|
  {
    if Peeked(ts, "|)&;") || ts == [] then Ok(ret, ts)
    else if !ts[0].Word? then Fail(Syntax)
    else if argc + 1 >= MAXARGS then Fail(TooManyArgs)
    else
      match Redirs(WithArg(ret, ts[0].w), ts[1..])
      case Ok(c, rest) => Args(c, argc + 1, rest)
      case Fail(e) => Fail(e)
  }

  function ParseExec<W>(ts: seq<Token<W>>): (r: Parsed<W>)
    ensures r.Ok? ==> |r.rest| <= |ts|
    decreases |ts|, 1
  {
    if Peeked(ts, "(") then ParseBlock(ts)
    else
      match Redirs(Exec([]), ts)
      case Ok(c, rest) => Args(c, 0, rest)
      case Fail(e) => Fail(e)
  }

  function ParseBlock<W>(ts: seq<Token<W>>): (r: Parsed<W>)
    requires Peeked(ts, "(")
    ensures r.Ok? ==> |r.rest| < |ts|
    decreases |ts|, 0
  {
    match ParseLine(ts[1..])
    case Fail(e) => Fail(e)
    case Ok(c, rest) => if !Peeked(rest, ")") then Fail(MissingParen) else Redirs(c, rest[1..])
  }

  function ParsePipe<W>(ts: seq<Token<W>>): (r: Parsed<W>)
    ensures r.Ok? ==> |r.rest| <= |ts|
    decreases |ts|, 2
  {
    match ParseExec(ts)
    case Fail(e) => Fail(e)
    case Ok(l, rest) =>
      if !Peeked(rest, "|") then Ok(l, rest)
      else
        match ParsePipe(rest[1..])
        case Fail(e) => Fail(e)
        case Ok(r, rest2) => Ok(Pipe(l, r), rest2)
  }

  /** parseline's loop over '&'. */
  function Backs<W>(cmd: Cmd<W>, ts: seq<Token<W>>): (r: Parsed<W>)
    ensures r.Ok? && |r.rest| <= |ts|
    decreases |ts|
  {
    if Peeked(ts, "&") then Backs(Back(cmd), ts[1..]) else Ok(cmd, ts)
  }

  function ParseLine<W>(ts: seq<Token<W>>): (r: Parsed<W>)
    ensures r.Ok? ==> |r.rest| <= |ts|
    decreases |ts|, 5
  {
    match ParsePipe(ts)
    case Fail(e) => Fail(e)
    case Ok(c, rest) => Listed(Backs(c, rest), ts)
  }

  /** parseline after its loop: a ';' and the rest of the line, or nothing. */
  function Listed<W>(left: Parsed<W>, ghost ts: seq<Token<W>>): (r: Parsed<W>)
    requires left.Ok? && |left.rest| <= |ts|
    ensures r.Ok? ==> |r.rest| <= |ts|
    decreases |left.rest|, 4
  {
    if !Peeked(left.rest, ";") then left
    else
      match ParseLine(left.rest[1..])
      case Fail(e) => Fail(e)
      case Ok(r, rest) => Ok(List(left.cmd, r), rest)
  }

  /** parsecmd: the whole input must be used up. */
  function ParseCmd<W>(ts: seq<Token<W>>): (r: Parsed<W>)
    ensures r.Ok? ==> r.rest == []
  {
    match ParseLine(ts)
    case Fail(e) => Fail(e)
    case Ok(c, rest) => if rest == [] then Ok(c, []) else Fail(Leftovers)
  }

  // ---- printing ----

  function Words<W>(ws: seq<W>): (ts: seq<Token<W>>)
    ensures |ts| == |ws| && forall i :: 0 <= i < |ts| ==> ts[i] == Word(ws[i])
  {
    if ws == [] then [] else Words(ws[..|ws| - 1]) + [Word(ws[|ws| - 1])]
  }

  function PrintLine<W>(t: Cmd<W>): seq<Token<W>>
    decreases t, 3
  {
    match t
    case List(l, r) => PrintBack(l) + [Sym(';')] + PrintLine(r)
    case _ => PrintBack(t)
  }

  function PrintBack<W>(t: Cmd<W>): seq<Token<W>>
    decreases t, 2
  {
    match t
    case Back(c) => PrintBack(c) + [Sym('&')]
    case _ => PrintPipe(t)
  }

  function PrintPipe<W>(t: Cmd<W>): seq<Token<W>>
    decreases t, 1
  {
    match t
    case Pipe(l, r) => PrintExec(l) + [Sym('|')] + PrintPipe(r)
    case _ => PrintExec(t)
  }

  function PrintExec<W>(t: Cmd<W>): seq<Token<W>>
    decreases t, 0
  {
    match t
    case Exec(argv) => Words(argv)
    case Redir(c, f, k) => PrintExec(c) + [Sym(SymOf(k)), Word(f)]
    case Pipe(l, r) => [Sym('(')] + (PrintExec(l) + [Sym('|')] + PrintPipe(r)) + [Sym(')')]
    case List(l, r) => [Sym('(')] + (PrintBack(l) + [Sym(';')] + PrintLine(r)) + [Sym(')')]
    case Back(c) => [Sym('(')] + (PrintBack(c) + [Sym('&')]) + [Sym(')')]
  }

  /** At most nine arguments per exec node: what fits in argv beside its terminator. */
  predicate Fits<W>(t: Cmd<W>)
  {
    match t
    case Exec(argv) => |argv| < MAXARGS
    case Redir(c, f, k) => Fits(c)
    case Pipe(l, r) => Fits(l) && Fits(r)
    case List(l, r) => Fits(l) && Fits(r)
    case Back(c) => Fits(c)
  }

  // ---- the round trip ----

  predicate EndsExec<W>(rest: seq<Token<W>>)
  {
    rest == [] || Peeked(rest, "|)&;")
  }

  predicate EndsPipe<W>(rest: seq<Token<W>>)
  {
    rest == [] || Peeked(rest, ")&;")
  }

  predicate EndsLine<W>(rest: seq<Token<W>>)
  {
    rest == [] || Peeked(rest, ")")
  }

  predicate IsSimple<W>(t: Cmd<W>)
  {
    t.Exec? || (t.Redir? && IsSimple(t.cmd))
  }

  function Argc<W>(t: Cmd<W>): nat
    requires IsSimple(t)
  {
    if t.Exec? then |t.argv| else Argc(t.cmd)
  }

  /** What parseexec still does once it has built t and rest remains. */
  function After<W>(t: Cmd<W>, argc: nat, rest: seq<Token<W>>): Parsed<W>
  {
    match Redirs(t, rest)
    case Ok(c, r) => Args(c, argc, r)
    case Fail(e) => Fail(e)
  }

  lemma {:induction false} WordsParse<W>(argv: seq<W>, rest: seq<Token<W>>)
    requires |argv| < MAXARGS && !Peeked(rest, "(")
    ensures ParseExec(Words(argv) + rest) == After(Exec(argv), |argv|, rest)
    decreases |argv|
  {
    if argv == [] {
      assert Words(argv) + rest == rest;
    } else {
      var a, w := argv[..|argv| - 1], argv[|argv| - 1];
      var more := [Word(w)] + rest;
      WordsParse(a, more);
      assert Words(argv) + rest == Words(a) + more;
      assert more[1..] == rest && a + [w] == argv;
      assert Redirs(Exec(a), more) == Ok(Exec(a), more);
    }
  }

  lemma {:induction false} SimpleParse<W>(t: Cmd<W>, rest: seq<Token<W>>)
    requires IsSimple(t) && Fits(t) && !Peeked(rest, "(")
    ensures ParseExec(PrintExec(t) + rest) == After(t, Argc(t), rest)
    decreases t
  {
    match t
    case Exec(argv) => WordsParse(argv, rest);
    case Redir(c, f, k) =>
      var more := [Sym(SymOf(k)), Word(f)] + rest;
      SimpleParse(c, more);
      assert PrintExec(t) + rest == PrintExec(c) + more;
      assert more[2..] == rest;
      assert Redirs(c, more) == Redirs(t, rest);
  }

  lemma Enclosed<W>(t: Cmd<W>)
    requires t.Pipe? || t.List? || t.Back?
    ensures PrintExec(t) == [Sym('(')] + PrintLine(t) + [Sym(')')]
  {
    if t.Pipe? {
      assert PrintLine(t) == PrintBack(t) == PrintPipe(t);
    }
  }

  /** A parenthesised command parses up to its redirections, whatever follows. */
  lemma {:induction false} WrappedParse<W>(t: Cmd<W>, rest: seq<Token<W>>)
    requires !IsSimple(t) && Fits(t)
    ensures ParseExec(PrintExec(t) + rest) == Redirs(t, rest)
    decreases t, Rank(t, 'E'), 0
  {
    if t.Redir? {
      var more := [Sym(SymOf(t.kind)), Word(t.file)] + rest;
      WrappedParse(t.cmd, more);
      assert PrintExec(t) + rest == PrintExec(t.cmd) + more;
      assert more[2..] == rest;
    } else {
      Enclosed(t);
      var ts, close := PrintExec(t) + rest, [Sym(')')] + rest;
      assert ts[1..] == PrintLine(t) + close;
      LineParse(t, close);
      assert close[1..] == rest;
    }
  }

  /** Well-founded order of the four lemmas on one tree. */
  function Rank<W>(t: Cmd<W>, level: char): nat
  {
    match t
    case Exec(_) => if level == 'E' then 0 else if level == 'P' then 1 else if level == 'B' then 2 else 3
    case Redir(_, _, _) => if level == 'E' then 0 else if level == 'P' then 1 else if level == 'B' then 2 else 3
    case Pipe(_, _) => if level == 'P' then 0 else if level == 'B' then 1 else if level == 'L' then 2 else 3
    case Back(_) => if level == 'B' then 0 else if level == 'L' then 1 else if level == 'E' then 2 else 3
    case List(_, _) => if level == 'L' then 0 else if level == 'E' then 1 else if level == 'P' then 2 else 3
  }

  lemma ExecParse<W>(t: Cmd<W>, rest: seq<Token<W>>)
    requires Fits(t) && EndsExec(rest)
    ensures ParseExec(PrintExec(t) + rest) == Ok(t, rest)
    decreases t, Rank(t, 'E'), 1
  {
    if IsSimple(t) {
      SimpleParse(t, rest);
    } else {
      WrappedParse(t, rest);
    }
  }

  lemma {:induction false} PipeParse<W>(t: Cmd<W>, rest: seq<Token<W>>)
    requires Fits(t) && EndsPipe(rest)
    ensures ParsePipe(PrintPipe(t) + rest) == Ok(t, rest)
    decreases t, Rank(t, 'P')
  {
    if t.Pipe? {
      var more := [Sym('|')] + (PrintPipe(t.right) + rest);
      assert PrintPipe(t) + rest == PrintExec(t.left) + more;
      ExecParse(t.left, more);
      assert more[1..] == PrintPipe(t.right) + rest;
      PipeParse(t.right, rest);
    } else {
      ExecParse(t, rest);
    }
  }

  lemma {:induction false} BackParse<W>(t: Cmd<W>, rest: seq<Token<W>>)
    requires Fits(t) && EndsPipe(rest)
    ensures var p := ParsePipe(PrintBack(t) + rest); p.Ok? && Backs(p.cmd, p.rest) == Backs(t, rest)
    decreases t, Rank(t, 'B')
  {
    if t.Back? {
      var more := [Sym('&')] + rest;
      BackParse(t.cmd, more);
      assert PrintBack(t) + rest == PrintBack(t.cmd) + more;
      assert more[1..] == rest;
    } else {
      PipeParse(t, rest);
    }
  }

  lemma {:induction false} LineParse<W>(t: Cmd<W>, rest: seq<Token<W>>)
    requires Fits(t) && EndsLine(rest)
    ensures ParseLine(PrintLine(t) + rest) == Ok(t, rest)
    decreases t, Rank(t, 'L')
  {
    if t.List? {
      var more := [Sym(';')] + (PrintLine(t.right) + rest);
      assert PrintLine(t) + rest == PrintBack(t.left) + more;
      BackParse(t.left, more);
      assert more[1..] == PrintLine(t.right) + rest;
      LineParse(t.right, rest);
    } else {
      BackParse(t, rest);
    }
  }

  /** Printing any command and parsing it gives the command back. */
  lemma PrintThenParse<W>(t: Cmd<W>)
    requires Fits(t)
    ensures ParseCmd(PrintLine(t)) == Ok(t, [])
  {
    LineParse(t, []);
    assert PrintLine(t) + [] == PrintLine(t);
  }
}
