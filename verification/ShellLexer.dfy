/**
 Characters and tokens of the shell (gettoken in sh.c): what a line's token list is, and how a
 token list written out with blanks reads back. A word is a pair of positions in the line.
 */
module ShellLexer {
  import opened ShellGrammar

  datatype Span = Span(q: nat, eq: nat)

  const WHITESPACE: string := [' ', '\t', '\r', '\n', '\U{0B}']
  const SYMBOLS: string := "<|>&;()"

  predicate IsSpace(c: char)
  {
    c in WHITESPACE
  }

  predicate IsSymbol(c: char)
  {
    c in SYMBOLS
  }

  predicate IsWordChar(c: char)
  {
    !IsSpace(c) && !IsSymbol(c) && c != '\0'
  }

  /** A C string of |s| characters: no NUL before its end. */
  predicate IsLine(s: string)
  {
    forall i :: 0 <= i < |s| ==> s[i] != '\0'
  }

  /** The first position from i on that is not white space. */
  function Skip(s: string, i: nat): (p: nat)
    requires i <= |s|
    ensures i <= p <= |s| && (p < |s| ==> !IsSpace(s[p]))
    ensures forall k :: i <= k < p ==> IsSpace(s[k])
    decreases |s| - i
  {
    if i < |s| && IsSpace(s[i]) then Skip(s, i + 1) else i
  }

  /** The end of the run of word characters at i. */
  function WordEnd(s: string, i: nat): (p: nat)
    requires i <= |s|
    ensures i <= p <= |s| && (p < |s| ==> !IsWordChar(s[p]))
    ensures forall k :: i <= k < p ==> IsWordChar(s[k])
    decreases |s| - i
  {
    if i < |s| && IsWordChar(s[i]) then WordEnd(s, i + 1) else i
  }

  /** The token at a position that is not white space, and where it ends. */
  function TokenAt(s: string, p: nat): Token<Span>
    requires p < |s|
  {
    if s[p] == '>' && p + 1 < |s| && s[p + 1] == '>' then Sym('+')
    else if IsSymbol(s[p]) then Sym(s[p])
    else Word(Span(p, WordEnd(s, p)))
  }

  function TokenEnd(s: string, p: nat): (e: nat)
    requires p < |s| && IsLine(s) && !IsSpace(s[p])
    ensures p < e <= |s|
  {
    if s[p] == '>' && p + 1 < |s| && s[p + 1] == '>' then p + 2
    else if IsSymbol(s[p]) then p + 1
    else WordEnd(s, p)
  }

  function Lex(s: string, i: nat): seq<Token<Span>>
    requires i <= |s| && IsLine(s)
    decreases |s| - i
  {
    var p := Skip(s, i);
    if p == |s| then [] else [TokenAt(s, p)] + Lex(s, TokenEnd(s, p))
  }

  lemma LexSkips(s: string, i: nat)
    requires i <= |s| && IsLine(s)
    ensures Lex(s, Skip(s, i)) == Lex(s, i)
  {
    assert Skip(s, Skip(s, i)) == Skip(s, i);
  }

  // ---- positions and text ----

  predicate SpanIn(s: string, w: Span)
  {
    w.q <= w.eq <= |s|
  }

  function Text(s: string, w: Span): string
  {
    if SpanIn(s, w) then s[w.q..w.eq] else ""
  }

  function TokText(s: string, t: Token<Span>): Token<string>
  {
    match t
    case Sym(c) => Sym(c)
    case Word(w) => Word(Text(s, w))
  }

  function ToksText(s: string, ts: seq<Token<Span>>): (r: seq<Token<string>>)
    ensures |r| == |ts|
  {
    if ts == [] then [] else [TokText(s, ts[0])] + ToksText(s, ts[1..])
  }

  function WordsText(s: string, ws: seq<Span>): (r: seq<string>)
    ensures |r| == |ws|
  {
    if ws == [] then [] else WordsText(s, ws[..|ws| - 1]) + [Text(s, ws[|ws| - 1])]
  }

  function CmdText(s: string, c: Cmd<Span>): Cmd<string>
  {
    match c
    case Exec(argv) => Exec(WordsText(s, argv))
    case Redir(d, f, k) => Redir(CmdText(s, d), Text(s, f), k)
    case Pipe(l, r) => Pipe(CmdText(s, l), CmdText(s, r))
    case List(l, r) => List(CmdText(s, l), CmdText(s, r))
    case Back(d) => Back(CmdText(s, d))
  }

  function ParsedText(s: string, p: Parsed<Span>): Parsed<string>
  {
    match p
    case Ok(c, rest) => Ok(CmdText(s, c), ToksText(s, rest))
    case Fail(e) => Fail(e)
  }

  // ---- parsing does not look into words ----

  lemma PeekedText(s: string, ts: seq<Token<Span>>, toks: string)
    ensures Peeked(ToksText(s, ts), toks) == Peeked(ts, toks)
    ensures ts != [] ==> ToksText(s, ts)[1..] == ToksText(s, ts[1..]) && ToksText(s, ts)[0] == TokText(s, ts[0])
  {
  }

  lemma {:induction false} RedirsText(s: string, c: Cmd<Span>, ts: seq<Token<Span>>)
    ensures Redirs(CmdText(s, c), ToksText(s, ts)) == ParsedText(s, Redirs(c, ts))
    decreases |ts|
  {
    PeekedText(s, ts, "<>");
    if Peeked(ts, "<>") && |ts| >= 2 {
      PeekedText(s, ts[1..], "<>");
      assert ts[1..][1..] == ts[2..] && ToksText(s, ts)[2..] == ToksText(s, ts)[1..][1..];
      assert ToksText(s, ts)[1] == TokText(s, ts[1]);
      if ts[1].Word? {
        RedirsText(s, Redir(c, ts[1].w, KindOf(ts[0].c)), ts[2..]);
      }
    }
  }

  lemma {:induction false} WithArgText(s: string, c: Cmd<Span>, w: Span)
    ensures WithArg(CmdText(s, c), Text(s, w)) == CmdText(s, WithArg(c, w))
    decreases c
  {
    match c
    case Exec(argv) =>
      assert (argv + [w])[..|argv + [w]| - 1] == argv;
    case Redir(d, f, k) => WithArgText(s, d, w);
    case _ =>
  }

  lemma {:induction false} ArgsText(s: string, c: Cmd<Span>, argc: nat, ts: seq<Token<Span>>)
    ensures Args(CmdText(s, c), argc, ToksText(s, ts)) == ParsedText(s, Args(c, argc, ts))
    decreases |ts|
  {
    hide Redirs, WithArg, CmdText, Peeked, ToksText;
    PeekedText(s, ts, "|)&;");
    if !Peeked(ts, "|)&;") && ts != [] && ts[0].Word? && argc + 1 < MAXARGS {
      WithArgText(s, c, ts[0].w);
      RedirsText(s, WithArg(c, ts[0].w), ts[1..]);
      match Redirs(WithArg(c, ts[0].w), ts[1..])
      case Ok(d, rest) => ArgsText(s, d, argc + 1, rest);
      case Fail(e) =>
    }
  }

  lemma {:induction false} ExecText(s: string, ts: seq<Token<Span>>)
    ensures ParseExec(ToksText(s, ts)) == ParsedText(s, ParseExec(ts))
    decreases |ts|, 1
  {
    PeekedText(s, ts, "(");
    if Peeked(ts, "(") {
      BlockText(s, ts);
    } else {
      RedirsText(s, Exec([]), ts);
      match Redirs(Exec([]), ts)
      case Ok(c, rest) => ArgsText(s, c, 0, rest);
      case Fail(e) =>
    }
  }

  lemma {:induction false} BlockText(s: string, ts: seq<Token<Span>>)
    requires Peeked(ts, "(")
    ensures Peeked(ToksText(s, ts), "(") && ParseBlock(ToksText(s, ts)) == ParsedText(s, ParseBlock(ts))
    decreases |ts|, 0
  {
    PeekedText(s, ts, "(");
    LineText(s, ts[1..]);
    match ParseLine(ts[1..])
    case Ok(c, rest) =>
      PeekedText(s, rest, ")");
      if Peeked(rest, ")") {
        RedirsText(s, c, rest[1..]);
      }
    case Fail(e) =>
  }

  lemma {:induction false} PipeText(s: string, ts: seq<Token<Span>>)
    ensures ParsePipe(ToksText(s, ts)) == ParsedText(s, ParsePipe(ts))
    decreases |ts|, 2
  {
    ExecText(s, ts);
    match ParseExec(ts)
    case Ok(l, rest) =>
      PeekedText(s, rest, "|");
      if Peeked(rest, "|") {
        PipeText(s, rest[1..]);
      }
    case Fail(e) =>
  }

  lemma {:induction false} BacksText(s: string, c: Cmd<Span>, ts: seq<Token<Span>>)
    ensures Backs(CmdText(s, c), ToksText(s, ts)) == ParsedText(s, Backs(c, ts))
    decreases |ts|
  {
    PeekedText(s, ts, "&");
    if Peeked(ts, "&") {
      BacksText(s, Back(c), ts[1..]);
    }
  }

  lemma {:induction false} LineText(s: string, ts: seq<Token<Span>>)
    ensures ParseLine(ToksText(s, ts)) == ParsedText(s, ParseLine(ts))
    decreases |ts|, 5
  {
    PipeText(s, ts);
    match ParsePipe(ts)
    case Ok(c, rest) =>
      BacksText(s, c, rest);
      var left := Backs(c, rest);
      PeekedText(s, left.rest, ";");
      if Peeked(left.rest, ";") {
        LineText(s, left.rest[1..]);
      }
    case Fail(e) =>
  }

  lemma CmdParsesText(s: string, ts: seq<Token<Span>>)
    ensures ParseCmd(ToksText(s, ts)) == ParsedText(s, ParseCmd(ts))
  {
    LineText(s, ts);
  }

  // ---- writing a command out ----

  /** A word of the language: at least one character, none of them white space, symbol or NUL. */
  predicate WordOk(w: string)
  {
    w != "" && forall i :: 0 <= i < |w| ==> IsWordChar(w[i])
  }

  predicate TokenOk(t: Token<string>)
  {
    match t
    case Sym(c) => c == '+' || IsSymbol(c)
    case Word(w) => WordOk(w)
  }

  predicate TokensOk(ts: seq<Token<string>>)
  {
    forall i :: 0 <= i < |ts| ==> TokenOk(ts[i])
  }

  predicate CmdOk(c: Cmd<string>)
  {
    match c
    case Exec(argv) => forall i :: 0 <= i < |argv| ==> WordOk(argv[i])
    case Redir(d, f, k) => CmdOk(d) && WordOk(f)
    case Pipe(l, r) => CmdOk(l) && CmdOk(r)
    case List(l, r) => CmdOk(l) && CmdOk(r)
    case Back(d) => CmdOk(d)
  }

  lemma {:induction false} PrintOk(c: Cmd<string>)
    requires CmdOk(c)
    ensures TokensOk(PrintLine(c)) && TokensOk(PrintBack(c)) && TokensOk(PrintPipe(c)) && TokensOk(PrintExec(c))
    decreases c
  {
    match c
    case Exec(argv) =>
      assert PrintLine(c) == PrintBack(c) == PrintPipe(c) == PrintExec(c);
    case Redir(d, f, k) =>
      PrintOk(d);
      assert PrintLine(c) == PrintBack(c) == PrintPipe(c) == PrintExec(c);
    case Pipe(l, r) =>
      PrintOk(l);
      PrintOk(r);
      assert PrintLine(c) == PrintBack(c) == PrintPipe(c);
    case List(l, r) =>
      PrintOk(l);
      PrintOk(r);
      assert PrintBack(c) == PrintPipe(c) == PrintExec(c);
    case Back(d) =>
      PrintOk(d);
      assert PrintPipe(c) == PrintExec(c) && PrintLine(c) == PrintBack(c);
  }

  function Show(t: Token<string>): string
  {
    match t
    case Sym(c) => if c == '+' then ">>" else [c]
    case Word(w) => w
  }

  /** Tokens written out, a blank after each. */
  function Render(ts: seq<Token<string>>): string
  {
    if ts == [] then "" else Show(ts[0]) + " " + Render(ts[1..])
  }

  lemma {:induction false} RenderIsLine(ts: seq<Token<string>>)
    requires TokensOk(ts)
    ensures IsLine(Render(ts))
    decreases |ts|
  {
    if ts != [] {
      assert TokenOk(ts[0]);
      RenderIsLine(ts[1..]);
    }
  }

  lemma WordEndsAt(s: string, p: nat, e: nat)
    requires p <= e <= |s| && (forall k :: p <= k < e ==> IsWordChar(s[k])) && (e < |s| ==> !IsWordChar(s[e]))
    ensures WordEnd(s, p) == e
  {
  }

  /** A token followed by a blank is read back as that token. */
  lemma ShownToken(s: string, p: nat, t: Token<string>)
    requires IsLine(s) && TokenOk(t) && p + |Show(t)| < |s| && s[p..p + |Show(t)|] == Show(t) && s[p + |Show(t)|] == ' '
    ensures !IsSpace(s[p]) && TokText(s, TokenAt(s, p)) == t && TokenEnd(s, p) == p + |Show(t)|
  {
    var sh := Show(t);
    assert |sh| > 0 && s[p] == sh[0];
    if t.Word? {
      forall k | p <= k < p + |sh| ensures IsWordChar(s[k]) {
        assert s[k] == s[p..p + |sh|][k - p];
      }
      WordEndsAt(s, p, p + |sh|);
    } else if t.c == '+' {
      assert s[p + 1] == sh[1];
    }
  }

  /** One token and its blank are read, and the rest of the line is next. */
  lemma LexStep(s: string, p: nat, t: Token<string>)
    requires IsLine(s) && TokenOk(t) && p + |Show(t)| < |s| && s[p..p + |Show(t)|] == Show(t) && s[p + |Show(t)|] == ' '
    ensures ToksText(s, Lex(s, p)) == [t] + ToksText(s, Lex(s, p + |Show(t)| + 1))
  {
    hide Show, TokenOk, TokenAt, TokenEnd, WordEnd;
    var e := p + |Show(t)|;
    ShownToken(s, p, t);
    assert Skip(s, p) == p && Skip(s, e) == Skip(s, e + 1);
    assert Lex(s, e) == Lex(s, e + 1);
    var rest := Lex(s, e);
    assert Lex(s, p) == [TokenAt(s, p)] + rest && ([TokenAt(s, p)] + rest)[1..] == rest;
  }

  lemma Placed(s: string, p: nat, sh: string, rest: string)
    requires p <= |s| && s[p..] == sh + " " + rest
    ensures p + |sh| < |s| && s[p..p + |sh|] == sh && s[p + |sh|] == ' ' && s[p + |sh| + 1..] == rest
  {
    var t := s[p..];
    assert s[p..p + |sh|] == t[..|sh|] && s[p + |sh|] == t[|sh|] && s[p + |sh| + 1..] == t[|sh| + 1..];
  }

  lemma TokensTail(ts: seq<Token<string>>)
    requires TokensOk(ts) && ts != []
    ensures TokenOk(ts[0]) && TokensOk(ts[1..]) && Render(ts) == Show(ts[0]) + " " + Render(ts[1..])
    ensures ts == [ts[0]] + ts[1..]
  {
  }

  /** The tail of a line that renders ts is read back as ts. */
  lemma {:induction false} RenderLexes(s: string, p: nat, ts: seq<Token<string>>)
    requires TokensOk(ts) && IsLine(s) && p <= |s| && s[p..] == Render(ts)
    ensures ToksText(s, Lex(s, p)) == ts
    decreases |ts|
  {
    hide Lex, Show, TokenOk, TokensOk, ToksText, IsLine, Render;
    if ts == [] {
      LexEnds(s, p);
    } else {
      TokensTail(ts);
      Placed(s, p, Show(ts[0]), Render(ts[1..]));
      LexStep(s, p, ts[0]);
      RenderLexes(s, p + |Show(ts[0])| + 1, ts[1..]);
    }
  }

  lemma LexEnds(s: string, p: nat)
    requires IsLine(s) && p <= |s| && s[p..] == Render([])
    ensures ToksText(s, Lex(s, p)) == []
  {
    assert p == |s|;
  }

  /** The shell parses the text of any command back to that command. */
  lemma RenderThenParse(t: Cmd<string>)
    requires Fits(t) && CmdOk(t)
    ensures var s := Render(PrintLine(t));
      IsLine(s) && ParseCmd(Lex(s, 0)).Ok? && CmdText(s, ParseCmd(Lex(s, 0)).cmd) == t
  {
    var s := Render(PrintLine(t));
    PrintOk(t);
    RenderIsLine(PrintLine(t));
    RenderLexes(s, 0, PrintLine(t));
    CmdParsesText(s, Lex(s, 0));
    PrintThenParse(t);
  }
}
