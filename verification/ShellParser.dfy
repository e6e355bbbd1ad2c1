/** gettoken, peek and the parse functions of sh.c over a line and a cursor, and nulterminate. */
module ShellParser {
  import opened ShellGrammar
  import opened ShellLexer

  /** A tree, or the message a parse function panics with. */
  datatype Outcome = Done(cmd: Cmd<Span>) | Panic(problem: Problem)

  /** A maximal run of word characters. */
  predicate SpanOk(s: string, w: Span)
  {
    && w.q < w.eq <= |s| && (forall k :: w.q <= k < w.eq ==> IsWordChar(s[k]))
    && (w.eq < |s| ==> !IsWordChar(s[w.eq]))
  }

  predicate SpansOk(s: string, c: Cmd<Span>)
  {
    match c
    case Exec(argv) => forall i :: 0 <= i < |argv| ==> SpanOk(s, argv[i])
    case Redir(d, f, k) => SpansOk(s, d) && SpanOk(s, f)
    case Pipe(l, r) => SpansOk(s, l) && SpansOk(s, r)
    case List(l, r) => SpansOk(s, l) && SpansOk(s, r)
    case Back(d) => SpansOk(s, d)
  }

  lemma WithArgOk(s: string, c: Cmd<Span>, w: Span)
    requires SpansOk(s, c) && SpanOk(s, w)
    ensures SpansOk(s, WithArg(c, w))
  {
  }

  /** What gettoken returns for a token. */
  function TokChar(t: Token<Span>): char
  {
    if t.Word? then 'a' else t.c
  }

  class Parser {
    const s: string
    var ps: nat

    ghost predicate Valid()
      reads this
    {
      IsLine(s) && ps <= |s|
    }

    constructor (line: string)
      requires IsLine(line)
      ensures Valid() && s == line && ps == 0
    {
      s, ps := line, 0;
    }

    /** The tokens still to come. */
    ghost function Left(): seq<Token<Span>>
      requires Valid()
      reads this
    {
      Lex(s, ps)
    }

    method SkipSpace(i: nat) returns (p: nat)
      requires i <= |s|
      ensures p == Skip(s, i)
    {
      p := i;
      while p < |s| && IsSpace(s[p])
        invariant i <= p <= |s| && Skip(s, p) == Skip(s, i)
      {
        p := p + 1;
      }
    }

    /** The switch of gettoken, at a character that is not white space. */
    method ScanToken(q: nat) returns (tok: char, eq: nat)
      requires IsLine(s) && q < |s| && !IsSpace(s[q])
      ensures eq == TokenEnd(s, q) && tok == TokChar(TokenAt(s, q)) && tok != '\0'
      ensures tok == 'a' <==> TokenAt(s, q).Word?
      ensures TokenAt(s, q).Word? ==> TokenAt(s, q).w == Span(q, eq) && SpanOk(s, Span(q, eq))
    {
      tok, eq := s[q], q;
      if s[q] == '|' || s[q] == '(' || s[q] == ')' || s[q] == ';' || s[q] == '&' || s[q] == '<' {
        eq := q + 1;
      } else if s[q] == '>' {
        eq := q + 1;
        if eq < |s| && s[eq] == '>' {
          tok := '+';
          eq := eq + 1;
        }
      } else {
        tok := 'a';
        while eq < |s| && !IsSpace(s[eq]) && !IsSymbol(s[eq])
          invariant q <= eq <= |s| && WordEnd(s, eq) == WordEnd(s, q)
        {
          eq := eq + 1;
        }
      }
    }

    method GetToken() returns (tok: char, q: nat, eq: nat)
      requires Valid()
      modifies this`ps
      ensures Valid() && ps >= old(ps)
      ensures old(Left()) == [] ==> tok == '\0' && Left() == []
      ensures old(Left()) != [] ==> ps > old(ps) && tok == TokChar(old(Left())[0]) && Left() == old(Left())[1..]
      ensures old(Left()) != [] ==> tok != '\0' && (tok == 'a' <==> old(Left())[0].Word?)
      ensures old(Left()) != [] && old(Left())[0].Word? ==> old(Left())[0].w == Span(q, eq) && SpanOk(s, Span(q, eq))
    {
      hide TokenAt, TokenEnd, TokChar, SpanOk;
      q := SkipSpace(ps);
      eq := q;
      tok := '\0';
      if q < |s| {
        tok, eq := ScanToken(q);
      }
      var p := SkipSpace(eq);
      LexSkips(s, eq);
      ps := p;
    }

    method Peek(toks: string) returns (r: bool)
      requires Valid() && forall c :: c in toks ==> IsSymbol(c)
      modifies this`ps
      ensures Valid() && ps >= old(ps) && Left() == old(Left())
      ensures r == Peeked(Left(), toks) && ps == Skip(s, old(ps))
    {
      var p := SkipSpace(ps);
      LexSkips(s, ps);
      ps := p;
      r := p < |s| && s[p] in toks;
    }

    method ParseRedirs(cmd: Cmd<Span>) returns (o: Outcome)
      requires Valid() && SpansOk(s, cmd)
      modifies this`ps
      ensures Valid() && ps >= old(ps) && Agrees(o, Left(), Redirs(cmd, old(Left())))
      ensures o.Done? ==> SpansOk(s, o.cmd)
    {
      hide Lex, SpanOk;
      var c := cmd;
      var more := Peek("<>");
      while more
        invariant Valid() && ps >= old(ps) && SpansOk(s, c) && more == Peeked(Left(), "<>")
        invariant Redirs(c, Left()) == Redirs(cmd, old(Left()))
        decreases |Left()|
      {
        ghost var ts := Left();
        var tok, q, eq := GetToken();
        var word;
        word, q, eq := GetToken();
        if word != 'a' {
          return Panic(MissingFile);
        }
        assert ts[2..] == ts[1..][1..];
        c := Redir(c, Span(q, eq), KindOf(tok));
        more := Peek("<>");
      }
      o := Done(c);
    }

    method ParseExec() returns (o: Outcome)
      requires Valid()
      modifies this`ps
      ensures Valid() && ps >= old(ps) && Agrees(o, Left(), ShellGrammar.ParseExec(old(Left())))
      ensures o.Done? ==> SpansOk(s, o.cmd)
      decreases |s| - ps, 1
    {
      hide Lex, SpanOk, Redirs;
      var block := Peek("(");
      if block {
        o := ParseBlock();
        return;
      }
      o := ParseRedirs(Exec([]));
      if o.Panic? {
        return;
      }
      var argc := 0;
      var stop := Peek("|)&;");
      while !stop
        invariant Valid() && ps >= old(ps) && o.Done? && SpansOk(s, o.cmd) && stop == Peeked(Left(), "|)&;")
        invariant Args(o.cmd, argc, Left()) == ShellGrammar.ParseExec(old(Left()))
        decreases |Left()|
      {
        ghost var ts := Left();
        var tok, q, eq := GetToken();
        if tok == '\0' {
          break;
        }
        if tok != 'a' {
          return Panic(Syntax);
        }
        WithArgOk(s, o.cmd, Span(q, eq));
        var c := WithArg(o.cmd, Span(q, eq));
        argc := argc + 1;
        if argc >= MAXARGS {
          return Panic(TooManyArgs);
        }
        o := ParseRedirs(c);
        if o.Panic? {
          return;
        }
        stop := Peek("|)&;");
      }
    }

    method ParseBlock() returns (o: Outcome)
      requires Valid() && Peeked(Left(), "(")
      modifies this`ps
      ensures Valid() && ps >= old(ps) && Agrees(o, Left(), ShellGrammar.ParseBlock(old(Left())))
      ensures o.Done? ==> SpansOk(s, o.cmd)
      decreases |s| - ps, 0
    {
      hide Lex, SpanOk, Redirs;
      var _, _, _ := GetToken();
      o := ParseLine();
      if o.Panic? {
        return;
      }
      var close := Peek(")");
      if !close {
        return Panic(MissingParen);
      }
      var _, _, _ := GetToken();
      o := ParseRedirs(o.cmd);
    }

    method ParsePipe() returns (o: Outcome)
      requires Valid()
      modifies this`ps
      ensures Valid() && ps >= old(ps) && Agrees(o, Left(), ShellGrammar.ParsePipe(old(Left())))
      ensures o.Done? ==> SpansOk(s, o.cmd)
      decreases |s| - ps, 2
    {
      hide Lex, SpanOk;
      o := ParseExec();
      if o.Panic? {
        return;
      }
      var bar := Peek("|");
      if bar {
        var left := o.cmd;
        var _, _, _ := GetToken();
        o := ParsePipe();
        if o.Done? {
          o := Done(Pipe(left, o.cmd));
        }
      }
    }

    method ParseLine() returns (o: Outcome)
      requires Valid()
      modifies this`ps
      ensures Valid() && ps >= old(ps) && Agrees(o, Left(), ShellGrammar.ParseLine(old(Left())))
      ensures o.Done? ==> SpansOk(s, o.cmd)
      decreases |s| - ps, 3
    {
      hide Lex, SpanOk;
      o := ParsePipe();
      if o.Panic? {
        return;
      }
      ghost var first, after := o.cmd, Left();
      var amp := Peek("&");
      while amp
        invariant Valid() && ps >= old(ps) && o.Done? && SpansOk(s, o.cmd) && amp == Peeked(Left(), "&")
        invariant Backs(o.cmd, Left()) == Backs(first, after)
        decreases |Left()|
      {
        var _, _, _ := GetToken();
        o := Done(Back(o.cmd));
        amp := Peek("&");
      }
      var semi := Peek(";");
      if semi {
        var left := o.cmd;
        var _, _, _ := GetToken();
        o := ParseLine();
        if o.Done? {
          o := Done(List(left, o.cmd));
        }
      }
    }

    /** parsecmd, up to nulterminate. */
    method ParseCmd() returns (o: Outcome)
      requires Valid() && ps == 0
      modifies this`ps
      ensures match ShellGrammar.ParseCmd(Lex(s, 0))
        case Ok(c, _) => o == Done(c)
        case Fail(e) => o == Panic(e)
      ensures o.Done? ==> SpansOk(s, o.cmd)
    {
      o := ParseLine();
      AtEnd(s, ps);
      var _ := Peek("");
      if o.Done? && ps != |s| {
        o := Panic(Leftovers);
      }
    }
  }

  /** The code did what the grammar does with the same tokens. */
  ghost predicate Agrees(o: Outcome, left: seq<Token<Span>>, p: Parsed<Span>)
  {
    match p
    case Ok(c, rest) => o == Done(c) && left == rest
    case Fail(e) => o == Panic(e)
  }

  lemma AtEnd(s: string, ps: nat)
    requires IsLine(s) && ps <= |s|
    ensures Lex(s, Skip(s, ps)) == [] <==> Skip(s, ps) == |s|
  {
    LexSkips(s, ps);
  }

  // ---- nulterminate ----

  /** w is an argument or a file of the command. */
  predicate Mentions(c: Cmd<Span>, w: Span)
  {
    match c
    case Exec(argv) => w in argv
    case Redir(d, f, k) => w == f || Mentions(d, w)
    case Pipe(l, r) => Mentions(l, w) || Mentions(r, w)
    case List(l, r) => Mentions(l, w) || Mentions(r, w)
    case Back(d) => Mentions(d, w)
  }

  ghost function EndsOf(ws: seq<Span>): set<nat>
  {
    if ws == [] then {} else EndsOf(ws[..|ws| - 1]) + {ws[|ws| - 1].eq}
  }

  /** The positions nulterminate overwrites. */
  ghost function Ends(c: Cmd<Span>): set<nat>
  {
    match c
    case Exec(argv) => EndsOf(argv)
    case Redir(d, f, k) => Ends(d) + {f.eq}
    case Pipe(l, r) => Ends(l) + Ends(r)
    case List(l, r) => Ends(l) + Ends(r)
    case Back(d) => Ends(d)
  }

  ghost predicate Nulled(before: seq<char>, after: seq<char>, ends: set<nat>)
  {
    |after| == |before| && forall i :: 0 <= i < |before| ==> after[i] == if i in ends then '\0' else before[i]
  }

  /** nulterminate: a NUL at the end of every word of the tree, nothing else. */
  method NulTerminate(c: Cmd<Span>, buf: array<char>, ghost s: string)
    requires SpansOk(s, c) && buf.Length == |s| + 1
    modifies buf
    ensures Nulled(old(buf[..]), buf[..], Ends(c))
    decreases c
  {
    match c {
      case Exec(argv) =>
        var i := 0;
        while i < |argv|
          invariant 0 <= i <= |argv| && Nulled(old(buf[..]), buf[..], EndsOf(argv[..i]))
        {
          assert SpanOk(s, argv[i]);
          buf[argv[i].eq] := '\0';
          assert argv[..i + 1][..i] == argv[..i];
          i := i + 1;
        }
        assert argv[..i] == argv;
      case Redir(d, f, k) =>
        NulTerminate(d, buf, s);
        buf[f.eq] := '\0';
      case Pipe(l, r) =>
        NulTerminate(l, buf, s);
        NulTerminate(r, buf, s);
      case List(l, r) =>
        NulTerminate(l, buf, s);
        NulTerminate(r, buf, s);
      case Back(d) =>
        NulTerminate(d, buf, s);
    }
  }

  /** The C string at q. */
  function CString(b: seq<char>, q: nat): string
    requires q <= |b|
    decreases |b| - q
  {
    if q < |b| && b[q] != '\0' then [b[q]] + CString(b, q + 1) else ""
  }

  lemma {:induction false} StringUpTo(b: seq<char>, q: nat, e: nat)
    requires q <= e < |b| && b[e] == '\0' && forall k :: q <= k < e ==> b[k] != '\0'
    ensures CString(b, q) == b[q..e]
    decreases e - q
  {
    if q < e {
      StringUpTo(b, q + 1, e);
      assert b[q..e] == [b[q]] + b[q + 1..e];
    }
  }

  lemma {:induction false} EndsOfWords(s: string, ws: seq<Span>, e: nat)
    requires (forall i :: 0 <= i < |ws| ==> SpanOk(s, ws[i])) && e in EndsOf(ws)
    ensures e <= |s| && (e < |s| ==> !IsWordChar(s[e]))
    decreases |ws|
  {
    var rest := ws[..|ws| - 1];
    if e in EndsOf(rest) {
      EndsOfWords(s, rest, e);
    } else {
      assert SpanOk(s, ws[|ws| - 1]);
    }
  }

  /** No end of a word lies inside a word. */
  lemma {:induction false} EndsAreOutside(s: string, c: Cmd<Span>, e: nat)
    requires SpansOk(s, c) && e in Ends(c)
    ensures e <= |s| && (e < |s| ==> !IsWordChar(s[e]))
    decreases c
  {
    match c
    case Exec(argv) => EndsOfWords(s, argv, e);
    case Redir(d, f, k) => if e in Ends(d) { EndsAreOutside(s, d, e); }
    case Pipe(l, r) => if e in Ends(l) { EndsAreOutside(s, l, e); } else { EndsAreOutside(s, r, e); }
    case List(l, r) => if e in Ends(l) { EndsAreOutside(s, l, e); } else { EndsAreOutside(s, r, e); }
    case Back(d) => EndsAreOutside(s, d, e);
  }

  lemma {:induction false} EndOfWord(ws: seq<Span>, i: nat)
    requires i < |ws|
    ensures ws[i].eq in EndsOf(ws)
    decreases |ws|
  {
    if i < |ws| - 1 {
      EndOfWord(ws[..|ws| - 1], i);
    }
  }

  lemma {:induction false} MentionedEnds(s: string, c: Cmd<Span>, w: Span)
    requires SpansOk(s, c) && Mentions(c, w)
    ensures SpanOk(s, w) && w.eq in Ends(c)
    decreases c
  {
    match c
    case Exec(argv) =>
      var i :| 0 <= i < |argv| && argv[i] == w;
      EndOfWord(argv, i);
    case Redir(d, f, k) => if w != f { MentionedEnds(s, d, w); }
    case Pipe(l, r) => if Mentions(l, w) { MentionedEnds(s, l, w); } else { MentionedEnds(s, r, w); }
    case List(l, r) => if Mentions(l, w) { MentionedEnds(s, l, w); } else { MentionedEnds(s, r, w); }
    case Back(d) => MentionedEnds(s, d, w);
  }

  /** After nulterminate, every word of the command is the C string at its start. */
  lemma WordsAreStrings(s: string, c: Cmd<Span>, after: seq<char>, w: Span)
    requires IsLine(s) && SpansOk(s, c) && Nulled(s + ['\0'], after, Ends(c)) && Mentions(c, w)
    ensures w.q < w.eq <= |s| && CString(after, w.q) == s[w.q..w.eq]
  {
    MentionedEnds(s, c, w);
    forall k | w.q <= k < w.eq ensures after[k] == s[k] && s[k] != '\0' {
      assert IsWordChar(s[k]);
      if k in Ends(c) {
        EndsAreOutside(s, c, k);
      }
    }
    StringUpTo(after, w.q, w.eq);
    assert after[w.q..w.eq] == s[w.q..w.eq];
  }

  /** parsecmd on a buffer: on success the tree's words are C strings in it; a panic leaves it alone. */
  method ParseBuffer(buf: array<char>) returns (o: Outcome)
    requires buf.Length > 0 && buf[buf.Length - 1] == '\0' && IsLine(buf[..buf.Length - 1])
    modifies buf
    ensures var s := old(buf[..buf.Length - 1]);
      match ShellGrammar.ParseCmd(Lex(s, 0))
      case Ok(c, _) => o == Done(c) && forall w :: Mentions(c, w) ==> w.q < w.eq <= |s| && CString(buf[..], w.q) == s[w.q..w.eq]
      case Fail(e) => o == Panic(e) && buf[..] == old(buf[..])
  {
    hide Lex, ShellGrammar.ParseCmd, SpanOk, CString;
    var s := buf[..buf.Length - 1];
    var parser := new Parser(s);
    o := parser.ParseCmd();
    if o.Done? {
      assert buf[..] == s + ['\0'];
      NulTerminate(o.cmd, buf, s);
      forall w | Mentions(o.cmd, w) ensures w.q < w.eq <= |s| && CString(buf[..], w.q) == s[w.q..w.eq] {
        WordsAreStrings(s, o.cmd, buf[..], w);
      }
    }
  }
}
