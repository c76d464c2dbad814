/** The shell's command language (sh.c of xv6-public_3) over tokens: what the
    recursive-descent parser computes, and printing, its inverse. */
module ShGrammar {
  const MAXARGS: nat := 10
  const O_RDONLY: nat := 0
  const O_CREATED: nat := 0x201       // O_WRONLY | O_CREATE

  /** gettoken's tokens: a word, or a symbol with '+' standing for ">>". */
  datatype Tok = Word(w: string) | Sym(c: char)

  /** struct cmd; W is what stands for a word. */
  datatype Cmd<W> =
    | Exec(argv: seq<W>)
    | Redir(cmd: Cmd<W>, file: W, mode: nat, fd: nat)
    | Pipe(left: Cmd<W>, right: Cmd<W>)
    | List(left: Cmd<W>, right: Cmd<W>)
    | Back(cmd: Cmd<W>)

  datatype Error = MissingFile | Syntax | MissingParen | TooManyArgs | Leftovers

  datatype Parsed = Ok(cmd: Cmd<string>, rest: seq<Tok>) | Err(error: Error)

  predicate Head(ts: seq<Tok>, c: char) {
    ts != [] && ts[0] == Sym(c)
  }

  predicate AtRedir(ts: seq<Tok>) {
    Head(ts, '<') || Head(ts, '>') || Head(ts, '+')
  }

  /** One of |, ), & and ;, or the end. */
  predicate AtStop(ts: seq<Tok>) {
    ts == [] || Head(ts, '|') || Head(ts, ')') || Head(ts, '&') || Head(ts, ';')
  }

  function MakeRedir<W>(cmd: Cmd<W>, c: char, file: W): Cmd<W> {
    if c == '<' then Redir(cmd, file, O_RDONLY, 0) else Redir(cmd, file, O_CREATED, 1)
  }

  // ---------- the parser ----------

  /** parseredirs */
  function ParseRedirs(cmd: Cmd<string>, ts: seq<Tok>): (r: Parsed)
    ensures r.Ok? ==> |r.rest| <= |ts|
    decreases |ts|
  {
    if !AtRedir(ts) then Ok(cmd, ts)
    else if |ts| < 2 || !ts[1].Word? then Err(MissingFile)
    else ParseRedirs(MakeRedir(cmd, ts[0].c, ts[1].w), ts[2..])
  }

  /** parseexec's loop: the arguments, with redirections anywhere among them.  `out`
      holds the redirections, wrapped around an empty command. */
  function ParseArgs(argv: seq<string>, out: Cmd<string>, ts: seq<Tok>): (r: Parsed)
    ensures r.Ok? ==> |r.rest| <= |ts|
    decreases |ts|
  {
    if AtStop(ts) then Ok(Fill(out, argv), ts)
    else if !ts[0].Word? then Err(Syntax)
    else if |argv| + 1 >= MAXARGS then Err(TooManyArgs)
    else
      var r := ParseRedirs(out, ts[1..]);
      if r.Err? then r else ParseArgs(argv + [ts[0].w], r.cmd, r.rest)
  }

  /** The arguments go to the command innermost under the redirections. */
  function Fill<W>(out: Cmd<W>, argv: seq<W>): Cmd<W> {
    match out
    case Redir(cmd, file, mode, fd) => Redir(Fill(cmd, argv), file, mode, fd)
    case _ => Exec(argv)
  }

  /** parseexec and parseblock */
  function ParseExec(ts: seq<Tok>): (r: Parsed)
    ensures r.Ok? ==> |r.rest| <= |ts|
    decreases |ts|, 0
  {
    if Head(ts, '(') then
      var r := ParseLine(ts[1..]);
      if r.Err? then r
      else if !Head(r.rest, ')') then Err(MissingParen)
      else ParseRedirs(r.cmd, r.rest[1..])
    else
      var r := ParseRedirs(Exec([]), ts);
      if r.Err? then r else ParseArgs([], r.cmd, r.rest)
  }

  /** parsepipe */
  function ParsePipe(ts: seq<Tok>): (r: Parsed)
    ensures r.Ok? ==> |r.rest| <= |ts|
    decreases |ts|, 1
  {
    var r := ParseExec(ts);
    if r.Err? || !Head(r.rest, '|') then r
    else
      var r2 := ParsePipe(r.rest[1..]);
      if r2.Err? then r2 else Ok(Pipe(r.cmd, r2.cmd), r2.rest)
  }

  /** parseline's loop over '&'. */
  function ParseBacks(cmd: Cmd<string>, ts: seq<Tok>): (r: Parsed)
    ensures r.Ok? && |r.rest| <= |ts|
    decreases |ts|
  {
    if Head(ts, '&') then ParseBacks(Back(cmd), ts[1..]) else Ok(cmd, ts)
  }

  /** parseline */
  function ParseLine(ts: seq<Tok>): (r: Parsed)
    ensures r.Ok? ==> |r.rest| <= |ts|
    decreases |ts|, 2
  {
    var r := ParsePipe(ts);
    if r.Err? then r
    else
      var r1 := ParseBacks(r.cmd, r.rest);
      if !Head(r1.rest, ';') then r1
      else
        var r2 := ParseLine(r1.rest[1..]);
        if r2.Err? then r2 else Ok(List(r1.cmd, r2.cmd), r2.rest)
  }

  /** parsecmd */
  function ParseCmd(ts: seq<Tok>): Parsed {
    var r := ParseLine(ts);
    if r.Ok? && r.rest != [] then Err(Leftovers) else r
  }

  // ---------- the language ----------

  /** A piece of a simple command: an argument or a redirection. */
  datatype Elem = Arg(w: string) | In(file: string) | Out(file: string) | Append(file: string)

  function ElemToks(e: Elem): seq<Tok> {
    match e
    case Arg(w) => [Word(w)]
    case In(file) => [Sym('<'), Word(file)]
    case Out(file) => [Sym('>'), Word(file)]
    case Append(file) => [Sym('+'), Word(file)]
  }

  function Toks(es: seq<Elem>): seq<Tok> {
    if es == [] then [] else ElemToks(es[0]) + Toks(es[1..])
  }

  function Args(es: seq<Elem>): seq<string> {
    if es == [] then [] else (if es[0].Arg? then [es[0].w] else []) + Args(es[1..])
  }

  /** ">>" is treated as ">". */
  function Wrap(c: Cmd<string>, e: Elem): Cmd<string> {
    match e
    case Arg(_) => c
    case In(file) => Redir(c, file, 0, 0)
    case Out(file) => Redir(c, file, 0x201, 1)
    case Append(file) => Redir(c, file, 0x201, 1)
  }

  /** The redirections wrap the command one after the other. */
  function Redirected(c: Cmd<string>, es: seq<Elem>): Cmd<string>
    decreases |es|
  {
    if es == [] then c else Redirected(Wrap(c, es[0]), es[1..])
  }

  /** Arguments and redirections in any order, nine arguments at most; there may be none
      of either. */
  ghost predicate IsSimple(ts: seq<Tok>, c: Cmd<string>) {
    exists es :: Toks(es) == ts && |Args(es)| <= 9 && c == Redirected(Exec(Args(es)), es)
  }

  /** A line in parentheses, then redirections. */
  ghost predicate IsBlock(ts: seq<Tok>, c: Cmd<string>)
    decreases |ts|, 0
  {
    exists n, sub, es :: 0 < n < |ts| && ts[0] == Sym('(') && IsLine(ts[1..n], sub) && ts[n] == Sym(')') &&
                         Toks(es) == ts[n + 1..] && Args(es) == [] && c == Redirected(sub, es)
  }

  /** Simple commands and blocks, separated by '|', which associates to the right. */
  ghost predicate IsPipe(ts: seq<Tok>, c: Cmd<string>)
    decreases |ts|, 1
  {
    || IsSimple(ts, c) || IsBlock(ts, c)
    || (c.Pipe? && exists n :: 0 <= n < |ts| && ts[n] == Sym('|') &&
                               (IsSimple(ts[..n], c.left) || IsBlock(ts[..n], c.left)) && IsPipe(ts[n + 1..], c.right))
  }

  /** A pipeline, then any number of '&'. */
  ghost predicate IsBacks(ts: seq<Tok>, c: Cmd<string>)
    decreases |ts|, 2
  {
    || IsPipe(ts, c)
    || (c.Back? && ts != [] && ts[|ts| - 1] == Sym('&') && IsBacks(ts[..|ts| - 1], c.cmd))
  }

  /** Those, separated by ';', which associates to the right. */
  ghost predicate IsLine(ts: seq<Tok>, c: Cmd<string>)
    decreases |ts|, 3
  {
    || IsBacks(ts, c)
    || (c.List? && exists n :: 0 <= n < |ts| && ts[n] == Sym(';') &&
                               IsBacks(ts[..n], c.left) && IsLine(ts[n + 1..], c.right))
  }

  // ---------- every line is parsed ----------

  /** The tokens split at position n, with k after them. */
  lemma SplitAt<T>(ts: seq<T>, n: nat, k: seq<T>)
    requires n < |ts|
    ensures var tail := ts[n..] + k;
            ts + k == ts[..n] + tail && tail != [] && tail[0] == ts[n] && tail[1..] == ts[n + 1..] + k
    ensures n > 0 ==> (ts + k)[1..] == ts[1..n] + (ts[n..] + k) && (ts + k)[0] == ts[0]
  {
    assert ts == ts[..n] + ts[n..];
    if n > 0 {
      assert ts == [ts[0]] + ts[1..n] + ts[n..];
      assert (ts + k) == [ts[0]] + (ts[1..n] + (ts[n..] + k));
    }
  }

  /** parseredirs and parseexec's loop. */
  function ParseElems(argv: seq<string>, out: Cmd<string>, ts: seq<Tok>): Parsed {
    var r := ParseRedirs(out, ts);
    if r.Err? then r else ParseArgs(argv, r.cmd, r.rest)
  }

  lemma {:induction false} FillRedirected(out: Cmd<string>, es: seq<Elem>, argv: seq<string>)
    ensures Fill(Redirected(out, es), argv) == Redirected(Fill(out, argv), es)
    decreases |es|
  {
    if es != [] {
      FillRedirected(Wrap(out, es[0]), es[1..], argv);
    }
  }

  lemma ToksCons(es: seq<Elem>, k: seq<Tok>)
    requires es != []
    ensures Toks(es) + k == ElemToks(es[0]) + (Toks(es[1..]) + k)
  {
  }

  lemma {:induction false} ElemsRead(argv: seq<string>, out: Cmd<string>, es: seq<Elem>, k: seq<Tok>)
    requires AtStop(k) && |argv| + |Args(es)| < MAXARGS
    ensures ParseElems(argv, out, Toks(es) + k) == Ok(Fill(Redirected(out, es), argv + Args(es)), k)
    decreases |es|
  {
    hide ParseElems, Fill, Toks, Args, Redirected;
    if es == [] {
      ElemsNone(argv, out, k);
    } else {
      var e, rest := es[0], Toks(es[1..]) + k;
      ElemsCons(out, e, es[1..], k);
      assert [e] + es[1..] == es;
      OneRead(argv, out, e, rest);
      if e.Arg? {
        ElemsRead(argv + [e.w], out, es[1..], k);
        assert argv + [e.w] + Args(es[1..]) == argv + Args(es);
      } else {
        ElemsRead(argv, Wrap(out, e), es[1..], k);
        assert Args(es) == Args(es[1..]);
      }
    }
  }

  lemma OneRead(argv: seq<string>, out: Cmd<string>, e: Elem, rest: seq<Tok>)
    ensures e.Arg? && |argv| + 1 < MAXARGS ==>
              ParseElems(argv, out, ElemToks(e) + rest) == ParseElems(argv + [e.w], out, rest)
    ensures !e.Arg? ==> ParseElems(argv, out, ElemToks(e) + rest) == ParseElems(argv, Wrap(out, e), rest)
  {
    var ts := ElemToks(e) + rest;
    if e.Arg? { assert ts[1..] == rest; } else { assert ts[2..] == rest; }
  }

  lemma {:induction false} RedirsRead(cmd: Cmd<string>, es: seq<Elem>, k: seq<Tok>)
    requires AtStop(k) && Args(es) == []
    ensures ParseRedirs(cmd, Toks(es) + k) == Ok(Redirected(cmd, es), k)
    decreases |es|
  {
    if es == [] {
      assert Toks(es) + k == k;
    } else {
      ToksCons(es, k);
      RedirsRead(Wrap(cmd, es[0]), es[1..], k);
      assert (Toks(es) + k)[2..] == Toks(es[1..]) + k;
    }
  }

  lemma SimpleRead(ts: seq<Tok>, c: Cmd<string>, k: seq<Tok>)
    requires IsSimple(ts, c) && AtStop(k)
    ensures ParseExec(ts + k) == Ok(c, k)
  {
    hide ParseRedirs, ParseArgs, ParseLine, Redirected, Args;
    var es :| Toks(es) == ts && |Args(es)| < MAXARGS && c == Redirected(Exec(Args(es)), es);
    ElemsRead([], Exec([]), es, k);
    FillRedirected(Exec([]), es, Args(es));
    assert [] + Args(es) == Args(es);
    if es != [] { ToksCons(es, k); } else { assert ts + k == k; }
  }

  lemma {:induction false} BlockRead(ts: seq<Tok>, c: Cmd<string>, k: seq<Tok>)
    requires IsBlock(ts, c) && AtStop(k)
    ensures ParseExec(ts + k) == Ok(c, k)
    decreases |ts|, 0
  {
    hide IsLine, ParseLine, ParseRedirs, Toks;
    var n, sub, es :| 0 < n < |ts| && ts[0] == Sym('(') && IsLine(ts[1..n], sub) && ts[n] == Sym(')') &&
                      Toks(es) == ts[n + 1..] && Args(es) == [] && c == Redirected(sub, es);
    var tail := ts[n..] + k;
    SplitAt(ts, n, k);
    LineRead(ts[1..n], sub, tail);
    RedirsRead(sub, es, k);
  }

  lemma ExecRead(ts: seq<Tok>, c: Cmd<string>, k: seq<Tok>)
    requires (IsSimple(ts, c) || IsBlock(ts, c)) && AtStop(k)
    ensures ParseExec(ts + k) == Ok(c, k)
    decreases |ts|, 1
  {
    hide *;
    if IsBlock(ts, c) { BlockRead(ts, c, k); } else { SimpleRead(ts, c, k); }
  }

  lemma {:induction false} PipeRead(ts: seq<Tok>, c: Cmd<string>, k: seq<Tok>)
    requires IsPipe(ts, c) && AtStop(k) && !Head(k, '|')
    ensures ParsePipe(ts + k) == Ok(c, k)
    decreases |ts|, 2
  {
    hide IsSimple, IsBlock, IsPipe, ParseExec, ParsePipe, AtStop;
    if IsSimple(ts, c) || IsBlock(ts, c) {
      ExecRead(ts, c, k);
      PipeStep(ts + k, c, c, k, k);
    } else {
      var n := PipeParts(ts, c);
      var tail := ts[n..] + k;
      SplitAt(ts, n, k);
      HeadStops(tail, '|');
      ExecRead(ts[..n], c.left, tail);
      PipeRead(ts[n + 1..], c.right, k);
      PipeStep(ts + k, c.left, c.right, tail, k);
    }
  }

  lemma PipeParts(ts: seq<Tok>, c: Cmd<string>) returns (n: nat)
    requires IsPipe(ts, c) && !IsSimple(ts, c) && !IsBlock(ts, c)
    ensures c.Pipe? && n < |ts| && ts[n] == Sym('|') && (IsSimple(ts[..n], c.left) || IsBlock(ts[..n], c.left))
    ensures IsPipe(ts[n + 1..], c.right)
  {
    hide IsSimple, IsBlock;
    n :| 0 <= n < |ts| && ts[n] == Sym('|') && (IsSimple(ts[..n], c.left) || IsBlock(ts[..n], c.left)) &&
         IsPipe(ts[n + 1..], c.right);
  }

  lemma LineParts(ts: seq<Tok>, c: Cmd<string>) returns (n: nat)
    requires IsLine(ts, c) && !IsBacks(ts, c)
    ensures c.List? && n < |ts| && ts[n] == Sym(';') && IsBacks(ts[..n], c.left) && IsLine(ts[n + 1..], c.right)
  {
    hide IsBacks;
    n :| 0 <= n < |ts| && ts[n] == Sym(';') && IsBacks(ts[..n], c.left) && IsLine(ts[n + 1..], c.right);
  }

  lemma HeadStops(ts: seq<Tok>, c: char)
    requires Head(ts, c) && c in "|)&;"
    ensures AtStop(ts)
  {
  }

  lemma PipeStep(ts: seq<Tok>, l: Cmd<string>, r: Cmd<string>, tail: seq<Tok>, k: seq<Tok>)
    requires ParseExec(ts) == Ok(l, tail)
    ensures !Head(tail, '|') ==> ParsePipe(ts) == Ok(l, tail)
    ensures Head(tail, '|') && ParsePipe(tail[1..]) == Ok(r, k) ==> ParsePipe(ts) == Ok(Pipe(l, r), k)
  {
    hide ParseExec;
  }

  lemma {:induction false} BacksRead(ts: seq<Tok>, c: Cmd<string>, k: seq<Tok>)
    requires IsBacks(ts, c) && AtStop(k) && !Head(k, '|')
    ensures var r := ParsePipe(ts + k); r.Ok? && ParseBacks(r.cmd, r.rest) == ParseBacks(c, k)
    decreases |ts|, 3
  {
    hide IsPipe, ParsePipe;
    if IsPipe(ts, c) {
      PipeRead(ts, c, k);
    } else {
      var n := |ts| - 1;
      var tail := ts[n..] + k;
      SplitAt(ts, n, k);
      BacksRead(ts[..n], c.cmd, tail);
      assert tail[1..] == k;
    }
  }

  lemma {:induction false} LineRead(ts: seq<Tok>, c: Cmd<string>, k: seq<Tok>)
    requires IsLine(ts, c) && (k == [] || Head(k, ')'))
    ensures ParseLine(ts + k) == Ok(c, k)
    decreases |ts|, 4
  {
    hide IsBacks, IsLine, ParsePipe, ParseBacks, ParseLine, AtStop;
    if IsBacks(ts, c) {
      assert AtStop(k) by { LineEnds(k); }
      BacksRead(ts, c, k);
      LineStep(ts + k, c, c, k, k);
    } else {
      var n := LineParts(ts, c);
      var tail := ts[n..] + k;
      SplitAt(ts, n, k);
      HeadStops(tail, ';');
      BacksRead(ts[..n], c.left, tail);
      LineRead(ts[n + 1..], c.right, k);
      LineStep(ts + k, c.left, c.right, tail, k);
    }
  }

  lemma LineEnds(k: seq<Tok>)
    requires k == [] || Head(k, ')')
    ensures AtStop(k)
  {
  }

  lemma LineStep(ts: seq<Tok>, l: Cmd<string>, r: Cmd<string>, tail: seq<Tok>, k: seq<Tok>)
    requires ParsePipe(ts).Ok? && !Head(tail, '&')
    requires var p := ParsePipe(ts); ParseBacks(p.cmd, p.rest) == ParseBacks(l, tail)
    ensures !Head(tail, ';') ==> ParseLine(ts) == Ok(l, tail)
    ensures Head(tail, ';') && ParseLine(tail[1..]) == Ok(r, k) ==> ParseLine(ts) == Ok(List(l, r), k)
  {
    hide ParsePipe;
  }

  // ---------- nothing else is parsed ----------

  lemma {:induction false} ElemsFound(argv: seq<string>, out: Cmd<string>, ts: seq<Tok>) returns (es: seq<Elem>)
    requires |argv| < MAXARGS && ParseElems(argv, out, ts).Ok?
    ensures var r := ParseElems(argv, out, ts);
            && ts == Toks(es) + r.rest && AtStop(r.rest) && |argv| + |Args(es)| < MAXARGS
            && r.cmd == Fill(Redirected(out, es), argv + Args(es))
    decreases |ts|
  {
    hide Toks, Args, Redirected, Fill, ParseElems, ParseArgs;
    if AtRedir(ts) {
      var e := RedirOf(ts);
      ElemsStep(argv, out, ts);
      es := ElemsFound(argv, Wrap(out, e), ts[2..]);
      ElemsCons(out, e, es, ParseElems(argv, out, ts).rest);
      assert Args([e] + es) == Args(es);
      es := [e] + es;
    } else if AtStop(ts) {
      es := [];
      ElemsNone(argv, out, ts);
    } else {
      ElemsArg(argv, out, ts);
      es := ElemsFound(argv + [ts[0].w], out, ts[1..]);
      ElemsCons(out, Arg(ts[0].w), es, ParseElems(argv, out, ts).rest);
      assert argv + [ts[0].w] + Args(es) == argv + ([ts[0].w] + Args(es));
      es := [Arg(ts[0].w)] + es;
    }
  }

  /** The redirection at the front. */
  function RedirOf(ts: seq<Tok>): (e: Elem) {
    var w := if |ts| > 1 && ts[1].Word? then ts[1].w else "";
    if Head(ts, '<') then In(w) else if Head(ts, '>') then Out(w) else Append(w)
  }

  lemma ElemsStep(argv: seq<string>, out: Cmd<string>, ts: seq<Tok>)
    requires AtRedir(ts) && (ParseRedirs(out, ts).Ok? || ParseElems(argv, out, ts).Ok?)
    ensures |ts| > 1 && ElemToks(RedirOf(ts)) + ts[2..] == ts
    ensures ParseRedirs(out, ts) == ParseRedirs(Wrap(out, RedirOf(ts)), ts[2..])
    ensures ParseElems(argv, out, ts) == ParseElems(argv, Wrap(out, RedirOf(ts)), ts[2..])
  {
    assert ts == [ts[0], ts[1]] + ts[2..];
  }

  lemma ElemsNone(argv: seq<string>, out: Cmd<string>, ts: seq<Tok>)
    requires AtStop(ts)
    ensures ParseElems(argv, out, ts) == Ok(Fill(out, argv), ts)
    ensures Toks([]) + ts == ts && argv + Args([]) == argv && Args([]) == [] && Redirected(out, []) == out
  {
  }

  lemma ElemsArg(argv: seq<string>, out: Cmd<string>, ts: seq<Tok>)
    requires !AtRedir(ts) && !AtStop(ts) && ParseElems(argv, out, ts).Ok?
    ensures ts[0].Word? && |argv| + 1 < MAXARGS && ElemToks(Arg(ts[0].w)) + ts[1..] == ts
    ensures ParseElems(argv, out, ts) == ParseElems(argv + [ts[0].w], out, ts[1..])
  {
    assert ts == [ts[0]] + ts[1..];
  }

  lemma ElemsCons(out: Cmd<string>, e: Elem, es: seq<Elem>, k: seq<Tok>)
    ensures ElemToks(e) + (Toks(es) + k) == Toks([e] + es) + k
    ensures Args([e] + es) == (if e.Arg? then [e.w] else []) + Args(es)
    ensures Redirected(out, [e] + es) == Redirected(Wrap(out, e), es)
  {
    assert ([e] + es)[1..] == es;
  }

  lemma {:induction false} RedirsFound(cmd: Cmd<string>, ts: seq<Tok>) returns (es: seq<Elem>)
    requires ParseRedirs(cmd, ts).Ok?
    ensures var r := ParseRedirs(cmd, ts); ts == Toks(es) + r.rest && Args(es) == [] && r.cmd == Redirected(cmd, es)
    decreases |ts|
  {
    hide Toks, Args, Redirected;
    if AtRedir(ts) {
      var e := RedirOf(ts);
      ElemsStep([], cmd, ts);
      es := RedirsFound(Wrap(cmd, e), ts[2..]);
      ElemsCons(cmd, e, es, ParseRedirs(cmd, ts).rest);
      es := [e] + es;
    } else {
      es := [];
      assert Toks([]) + ts == ts && Args([]) == [] && Redirected(cmd, []) == cmd by { NoElems(cmd, ts); }
    }
  }

  lemma NoElems(cmd: Cmd<string>, ts: seq<Tok>)
    ensures Toks([]) + ts == ts && Args([]) == [] && Redirected(cmd, []) == cmd
  {
  }

  /** The tokens that a parse has consumed. */
  function Used(ts: seq<Tok>, r: Parsed): (n: nat)
    requires r.Ok? && |r.rest| <= |ts|
  {
    |ts| - |r.rest|
  }

  lemma {:induction false} ExecFound(ts: seq<Tok>)
    requires ParseExec(ts).Ok?
    ensures var r := ParseExec(ts); var n := Used(ts, r);
            ts[n..] == r.rest && (IsSimple(ts[..n], r.cmd) || IsBlock(ts[..n], r.cmd))
    decreases |ts|, 0
  {
    hide IsLine, IsSimple, IsBlock, ParseLine, ParseRedirs, ParseArgs;
    if Head(ts, '(') {
      LineFound(ts[1..]);
      BlockFound(ts);
    } else {
      SimpleFound(ts);
    }
  }

  lemma SimpleFound(ts: seq<Tok>)
    requires !Head(ts, '(') && ParseExec(ts).Ok?
    ensures var r := ParseExec(ts); var n := Used(ts, r); ts[n..] == r.rest && IsSimple(ts[..n], r.cmd)
  {
    hide ParseRedirs, ParseArgs, Redirected, Fill;
    var es := ElemsFound([], Exec([]), ts);
    FillRedirected(Exec([]), es, Args(es));
    assert [] + Args(es) == Args(es);
    assert Fill(Exec([]), Args(es)) == Exec(Args(es)) by { FillExec(Args(es)); }
    var n := Used(ts, ParseExec(ts));
    assert ts[..n] == Toks(es);
  }

  lemma FillExec(argv: seq<string>)
    ensures Fill(Exec([]), argv) == Exec(argv)
  {
  }

  lemma BlockFound(ts: seq<Tok>)
    requires Head(ts, '(') && ParseExec(ts).Ok?
    requires var line := ParseLine(ts[1..]); line.Ok? ==> var m := Used(ts[1..], line);
             ts[1..][m..] == line.rest && IsLine(ts[1..][..m], line.cmd)
    ensures var r := ParseExec(ts); var n := Used(ts, r); ts[n..] == r.rest && IsBlock(ts[..n], r.cmd)
  {
    hide IsLine, ParseLine, ParseRedirs, Redirected, Toks, Args;
    var r, line := ParseExec(ts), ParseLine(ts[1..]);
    var es := RedirsFound(line.cmd, line.rest[1..]);
    var n, m := Used(ts, r), 1 + Used(ts[1..], line);
    assert ts[..n][1..m] == ts[1..][..m - 1];
    assert ts[m..] == line.rest && ts[..n][m] == ts[m] == Sym(')');
    assert ts[m + 1..] == Toks(es) + r.rest;
    assert ts[..n][m + 1..] == Toks(es);
  }

  lemma {:induction false} PipeFound(ts: seq<Tok>)
    requires ParsePipe(ts).Ok?
    ensures var r := ParsePipe(ts); var n := Used(ts, r); ts[n..] == r.rest && IsPipe(ts[..n], r.cmd)
    decreases |ts|, 1
  {
    hide IsSimple, IsBlock, ParseExec;
    ExecFound(ts);
    var first := ParseExec(ts);
    var m, n := Used(ts, first), Used(ts, ParsePipe(ts));
    if Head(first.rest, '|') {
      PipeFound(first.rest[1..]);
      assert ts[..n][..m] == ts[..m] && ts[..n][m + 1..] == first.rest[1..][..n - m - 1];
      assert ts[..n][m] == Sym('|');
    }
  }

  lemma {:induction false} BacksFound(ts: seq<Tok>, m: nat, cmd: Cmd<string>)
    requires m <= |ts| && IsBacks(ts[..m], cmd)
    ensures var r := ParseBacks(cmd, ts[m..]); var n := Used(ts, r); ts[n..] == r.rest && IsBacks(ts[..n], r.cmd)
    decreases |ts| - m
  {
    hide IsPipe;
    if Head(ts[m..], '&') {
      assert ts[..m + 1][..m] == ts[..m] && ts[m..][1..] == ts[m + 1..];
      BacksFound(ts, m + 1, Back(cmd));
    }
  }

  lemma {:induction false} LineFound(ts: seq<Tok>)
    requires ParseLine(ts).Ok?
    ensures var r := ParseLine(ts); var n := Used(ts, r); ts[n..] == r.rest && IsLine(ts[..n], r.cmd)
    decreases |ts|, 2
  {
    hide IsPipe, IsBacks, ParsePipe, ParseBacks;
    PipeFound(ts);
    var first := ParsePipe(ts);
    IsBacksOf(ts[..Used(ts, first)], first.cmd);
    BacksFound(ts, Used(ts, first), first.cmd);
    var backs := ParseBacks(first.cmd, first.rest);
    var m, n := Used(ts, backs), Used(ts, ParseLine(ts));
    if Head(backs.rest, ';') {
      LineFound(backs.rest[1..]);
      assert ts[..n][..m] == ts[..m] && ts[..n][m + 1..] == backs.rest[1..][..n - m - 1];
      assert ts[..n][m] == Sym(';');
    }
  }

  lemma OneIsLine(ts: seq<Tok>, c: Cmd<string>)
    requires IsSimple(ts, c) || IsBlock(ts, c)
    ensures IsPipe(ts, c) && IsBacks(ts, c) && IsLine(ts, c)
  {
  }

  lemma IsBacksOf(ts: seq<Tok>, c: Cmd<string>)
    requires IsPipe(ts, c)
    ensures IsBacks(ts, c)
  {
  }

  /** parsecmd accepts exactly the lines of the language, each with its one tree. */
  lemma ParseCmdIff(ts: seq<Tok>, c: Cmd<string>)
    ensures ParseCmd(ts) == Ok(c, []) <==> IsLine(ts, c)
    ensures ParseCmd(ts).Ok? ==> ParseCmd(ts).rest == []
  {
    hide IsLine, ParseLine;
    if ParseCmd(ts).Ok? {
      LineFound(ts);
      assert ts[..|ts|] == ts;
    }
    if IsLine(ts, c) {
      LineRead(ts, c, []);
      assert ts + [] == ts;
    }
  }

  // ---------- printing ----------

  predicate LegalChar(c: char) {
    c !in " \t\r\n" && c != 11 as char && c !in "<|>&;()" && c != 0 as char
  }

  predicate LegalWord(w: string) {
    w != "" && forall c :: c in w ==> LegalChar(c)
  }

  /** Legal words, at most MAXARGS - 1 arguments, and the two kinds of redirection. */
  predicate Legal(c: Cmd<string>) {
    match c
    case Exec(argv) => |argv| < MAXARGS && forall i :: 0 <= i < |argv| ==> LegalWord(argv[i])
    case Redir(cmd, file, mode, fd) => Legal(cmd) && LegalWord(file) &&
        ((mode == O_RDONLY && fd == 0) || (mode == O_CREATED && fd == 1))
    case Pipe(l, r) => Legal(l) && Legal(r)
    case List(l, r) => Legal(l) && Legal(r)
    case Back(cmd) => Legal(cmd)
  }

  function Words(argv: seq<string>): (ts: seq<Tok>)
    ensures |ts| == |argv| && forall i :: 0 <= i < |ts| ==> ts[i] == Word(argv[i])
  {
    seq(|argv|, i requires 0 <= i < |argv| => Word(argv[i]))
  }

  /** A command where an operand is wanted: compound ones in parentheses. */
  function ShowOperand(c: Cmd<string>): seq<Tok>
    decreases c, 1
  {
    match c
    case Exec(argv) => Words(argv)
    case Redir(cmd, file, mode, fd) => ShowOperand(cmd) + [Sym(if mode == O_RDONLY then '<' else '>'), Word(file)]
    case _ => [Sym('(')] + Show(c) + [Sym(')')]
  }

  function Show(c: Cmd<string>): seq<Tok>
    decreases c, 0
  {
    match c
    case Pipe(l, r) => ShowOperand(l) + [Sym('|')] + ShowOperand(r)
    case List(l, r) => ShowOperand(l) + [Sym(';')] + ShowOperand(r)
    case Back(cmd) => ShowOperand(cmd) + [Sym('&')]
    case Exec(argv) => Words(argv)
    case Redir(cmd, file, mode, fd) => ShowOperand(cmd) + [Sym(if mode == O_RDONLY then '<' else '>'), Word(file)]
  }

  // ---------- parsing what was printed ----------

  lemma {:induction false} ElemSnoc(c: Cmd<string>, es: seq<Elem>, e: Elem)
    ensures Toks(es + [e]) == Toks(es) + ElemToks(e)
    ensures Args(es + [e]) == Args(es) + if e.Arg? then [e.w] else []
    ensures Redirected(c, es + [e]) == Wrap(Redirected(c, es), e)
    decreases |es|
  {
    if es == [] {
      assert es + [e] == [e] && [e][1..] == [];
    } else {
      assert (es + [e])[1..] == es[1..] + [e];
      ElemSnoc(Wrap(c, es[0]), es[1..], e);
    }
  }

  lemma {:induction false} WordElems(argv: seq<string>) returns (es: seq<Elem>)
    ensures Toks(es) == Words(argv) && Args(es) == argv && forall c :: Redirected(c, es) == c
    decreases |argv|
  {
    if argv == [] {
      es := [];
    } else {
      var n := |argv| - 1;
      es := WordElems(argv[..n]);
      forall c ensures Redirected(c, es + [Arg(argv[n])]) == c { ElemSnoc(c, es, Arg(argv[n])); }
      ElemSnoc(Exec([]), es, Arg(argv[n]));
      es := es + [Arg(argv[n])];
      assert Words(argv) == Words(argv[..n]) + [Word(argv[n])];
    }
  }

  /** One more redirection on a simple command. */
  lemma SimpleShown(ts: seq<Tok>, c: Cmd<string>, e: Elem)
    requires IsSimple(ts, c) && !e.Arg?
    ensures IsSimple(ts + ElemToks(e), Wrap(c, e))
  {
    hide Toks, Args, Redirected, Wrap, ElemToks;
    var es :| Toks(es) == ts && |Args(es)| < MAXARGS && c == Redirected(Exec(Args(es)), es);
    ElemSnoc(Exec(Args(es)), es, e);
    var more := es + [e];
    assert Args(more) == Args(es);
    assert Toks(more) == ts + ElemToks(e);
  }

  /** And on a block. */
  lemma BlockWrapped(ts: seq<Tok>, c: Cmd<string>, e: Elem)
    requires IsBlock(ts, c) && !e.Arg?
    ensures IsBlock(ts + ElemToks(e), Wrap(c, e))
  {
    hide IsLine, Toks, Args, Redirected, Wrap, ElemToks;
    var n, sub, es :| 0 < n < |ts| && ts[0] == Sym('(') && IsLine(ts[1..n], sub) && ts[n] == Sym(')') &&
                      Toks(es) == ts[n + 1..] && Args(es) == [] && c == Redirected(sub, es);
    ElemSnoc(sub, es, e);
    var ts', more := ts + ElemToks(e), es + [e];
    assert ts'[1..n] == ts[1..n] && ts'[n + 1..] == Toks(more);
    assert Args(more) == [];
    assert IsLine(ts'[1..n], sub) && ts'[0] == Sym('(') && ts'[n] == Sym(')');
  }

  /** A printed operand is a simple command or a block. */
  lemma {:induction false} OperandShown(c: Cmd<string>)
    requires Legal(c)
    ensures IsSimple(ShowOperand(c), c) || IsBlock(ShowOperand(c), c)
    decreases c, 1
  {
    hide IsLine, IsBlock;
    match c
    case Exec(argv) =>
      var es := WordElems(argv);
    case Redir(cmd, file, mode, fd) =>
      OperandShown(cmd);
      var e := if mode == O_RDONLY then In(file) else Out(file);
      if IsSimple(ShowOperand(cmd), cmd) {
        SimpleShown(ShowOperand(cmd), cmd, e);
      } else {
        BlockWrapped(ShowOperand(cmd), cmd, e);
      }
    case _ =>
      LineShown(c);
      BlockShown(c);
  }

  lemma BlockShown(c: Cmd<string>)
    requires !c.Exec? && !c.Redir? && IsLine(Show(c), c)
    ensures IsBlock(ShowOperand(c), c)
  {
    hide IsLine, Show;
    var ts, n := ShowOperand(c), |Show(c)| + 1;
    assert ts == [Sym('(')] + Show(c) + [Sym(')')];
    assert ts[1..n] == Show(c) && ts[n + 1..] == Toks([]) && ts[n] == Sym(')');
    assert IsLine(ts[1..n], c) && Args([]) == [] && c == Redirected(c, []);
  }

  /** A printed command is a line. */
  lemma {:induction false} LineShown(c: Cmd<string>)
    requires Legal(c)
    ensures IsLine(Show(c), c)
    decreases c, if c.Exec? || c.Redir? then 2 else 0
  {
    hide IsSimple, IsBlock, IsPipe, IsBacks, IsLine, ShowOperand;
    var ts := Show(c);
    match c
    case Pipe(l, r) =>
      OperandShown(l);
      OperandShown(r);
      OneIsLine(ShowOperand(r), r);
      var n := |ShowOperand(l)|;
      assert ts[..n] == ShowOperand(l) && ts[n + 1..] == ShowOperand(r);
      PipeShown(ts, c, n);
    case List(l, r) =>
      OperandShown(l);
      OperandShown(r);
      OneIsLine(ShowOperand(l), l);
      OneIsLine(ShowOperand(r), r);
      var n := |ShowOperand(l)|;
      assert ts[..n] == ShowOperand(l) && ts[n + 1..] == ShowOperand(r);
      ListShown(ts, c, n);
    case Back(cmd) =>
      OperandShown(cmd);
      OneIsLine(ShowOperand(cmd), cmd);
      assert ts[..|ts| - 1] == ShowOperand(cmd);
      BackShown(ts, c);
    case _ =>
      OperandShown(c);
      OneIsLine(ShowOperand(c), c);
      assert Show(c) == ShowOperand(c) by { ShowSame(c); }
  }

  lemma ShowSame(c: Cmd<string>)
    requires c.Exec? || c.Redir?
    ensures Show(c) == ShowOperand(c)
  {
  }

  lemma PipeShown(ts: seq<Tok>, c: Cmd<string>, n: nat)
    requires c.Pipe? && n < |ts| && ts[n] == Sym('|') && IsPipe(ts[n + 1..], c.right)
    requires IsSimple(ts[..n], c.left) || IsBlock(ts[..n], c.left)
    ensures IsLine(ts, c)
  {
    hide IsSimple, IsBlock;
    assert IsPipe(ts, c);
    IsBacksOf(ts, c);
  }

  lemma ListShown(ts: seq<Tok>, c: Cmd<string>, n: nat)
    requires c.List? && n < |ts| && ts[n] == Sym(';') && IsBacks(ts[..n], c.left) && IsLine(ts[n + 1..], c.right)
    ensures IsLine(ts, c)
  {
    hide IsBacks;
  }

  lemma BackShown(ts: seq<Tok>, c: Cmd<string>)
    requires c.Back? && ts != [] && ts[|ts| - 1] == Sym('&') && IsBacks(ts[..|ts| - 1], c.cmd)
    ensures IsLine(ts, c)
  {
    hide IsPipe;
    assert IsBacks(ts, c);
  }

  /** The round trip on tokens. */
  lemma ParseShow(c: Cmd<string>)
    requires Legal(c)
    ensures ParseCmd(Show(c)) == Ok(c, [])
  {
    LineShown(c);
    ParseCmdIff(Show(c), c);
  }

  // ---------- what parsing yields ----------

  predicate LegalToks(ts: seq<Tok>) {
    forall t :: t in ts && t.Word? ==> LegalWord(t.w)
  }

  lemma {:induction false} RedirsLegal(cmd: Cmd<string>, ts: seq<Tok>)
    requires Legal(cmd) && LegalToks(ts)
    ensures var r := ParseRedirs(cmd, ts); r.Ok? ==> Legal(r.cmd) && LegalToks(r.rest)
    decreases |ts|
  {
    if AtRedir(ts) && |ts| >= 2 && ts[1].Word? {
      assert ts[1] in ts;
      RedirsLegal(MakeRedir(cmd, ts[0].c, ts[1].w), ts[2..]);
    }
  }

  lemma {:induction false} FillLegal(out: Cmd<string>, argv: seq<string>)
    requires Legal(out) && Legal(Exec(argv))
    ensures Legal(Fill(out, argv))
  {
    if out.Redir? { FillLegal(out.cmd, argv); }
  }

  lemma {:induction false} ArgsLegal(argv: seq<string>, out: Cmd<string>, ts: seq<Tok>)
    requires Legal(out) && Legal(Exec(argv)) && LegalToks(ts)
    ensures var r := ParseArgs(argv, out, ts); r.Ok? ==> Legal(r.cmd) && LegalToks(r.rest)
    decreases |ts|
  {
    if AtStop(ts) {
      FillLegal(out, argv);
    } else if ts[0].Word? && |argv| + 1 < MAXARGS {
      assert ts[0] in ts;
      RedirsLegal(out, ts[1..]);
      var r := ParseRedirs(out, ts[1..]);
      if r.Ok? { ArgsLegal(argv + [ts[0].w], r.cmd, r.rest); }
    }
  }

  lemma {:induction false} ExecLegal(ts: seq<Tok>)
    requires LegalToks(ts)
    ensures var r := ParseExec(ts); r.Ok? ==> Legal(r.cmd) && LegalToks(r.rest)
    decreases |ts|, 0
  {
    if Head(ts, '(') {
      LineLegal(ts[1..]);
      var r := ParseLine(ts[1..]);
      if r.Ok? && Head(r.rest, ')') { RedirsLegal(r.cmd, r.rest[1..]); }
    } else {
      RedirsLegal(Exec([]), ts);
      var r := ParseRedirs(Exec([]), ts);
      if r.Ok? { ArgsLegal([], r.cmd, r.rest); }
    }
  }

  lemma {:induction false} PipeLegal(ts: seq<Tok>)
    requires LegalToks(ts)
    ensures var r := ParsePipe(ts); r.Ok? ==> Legal(r.cmd) && LegalToks(r.rest)
    decreases |ts|, 1
  {
    ExecLegal(ts);
    var r := ParseExec(ts);
    if r.Ok? && Head(r.rest, '|') { PipeLegal(r.rest[1..]); }
  }

  lemma {:induction false} BacksLegal(cmd: Cmd<string>, ts: seq<Tok>)
    requires Legal(cmd) && LegalToks(ts)
    ensures var r := ParseBacks(cmd, ts); Legal(r.cmd) && LegalToks(r.rest)
    decreases |ts|
  {
    if Head(ts, '&') { BacksLegal(Back(cmd), ts[1..]); }
  }

  /** Every tree the parser builds has legal words and few enough arguments. */
  lemma {:induction false} LineLegal(ts: seq<Tok>)
    requires LegalToks(ts)
    ensures var r := ParseLine(ts); r.Ok? ==> Legal(r.cmd) && LegalToks(r.rest)
    decreases |ts|, 2
  {
    PipeLegal(ts);
    var r := ParsePipe(ts);
    if r.Ok? {
      BacksLegal(r.cmd, r.rest);
      var r1 := ParseBacks(r.cmd, r.rest);
      if Head(r1.rest, ';') { LineLegal(r1.rest[1..]); }
    }
  }

  /** Printing an accepted line and parsing again gives the same tree. */
  lemma ParseShowParse(ts: seq<Tok>)
    requires LegalToks(ts) && ParseCmd(ts).Ok?
    ensures ParseCmd(Show(ParseCmd(ts).cmd)) == ParseCmd(ts)
  {
    LineLegal(ts);
    ParseShow(ParseCmd(ts).cmd);
  }
}
