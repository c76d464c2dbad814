/** The shell's parser over its line buffer (sh.c of xv6-public_3): a cursor that
    gettoken and peek advance, parse functions, and nulterminate in place. */
module Sh {
  import opened ShGrammar
  import opened ShLex

  const NUL := 0 as char

  /** A word in the buffer: from q up to eq. */
  datatype Span = Span(q: nat, eq: nat)

  datatype Result = Done(cmd: Cmd<Span>) | Panic(error: Error)

  /** A maximal run of word characters. */
  predicate IsWordAt(s: string, sp: Span) {
    && sp.q < sp.eq <= |s| && (forall i :: sp.q <= i < sp.eq ==> IsWordChar(s[i]))
    && (sp.eq < |s| ==> !IsWordChar(s[sp.eq]))
  }

  /** Every argument and file of c is a word of s. */
  predicate Spans(c: Cmd<Span>, s: string) {
    match c
    case Exec(argv) => forall i :: 0 <= i < |argv| ==> IsWordAt(s, argv[i])
    case Redir(cmd, file, _, _) => Spans(cmd, s) && IsWordAt(s, file)
    case Pipe(l, r) => Spans(l, s) && Spans(r, s)
    case List(l, r) => Spans(l, s) && Spans(r, s)
    case Back(cmd) => Spans(cmd, s)
  }

  function WordOf(s: string, sp: Span): string {
    if sp.q <= sp.eq <= |s| then s[sp.q..sp.eq] else ""
  }

  function WordsOf(s: string, argv: seq<Span>): seq<string> {
    seq(|argv|, i requires 0 <= i < |argv| => WordOf(s, argv[i]))
  }

  /** The tree with its words spelt out. */
  function Spell(c: Cmd<Span>, s: string): Cmd<string> {
    match c
    case Exec(argv) => Exec(WordsOf(s, argv))
    case Redir(cmd, file, mode, fd) => Redir(Spell(cmd, s), WordOf(s, file), mode, fd)
    case Pipe(l, r) => Pipe(Spell(l, s), Spell(r, s))
    case List(l, r) => List(Spell(l, s), Spell(r, s))
    case Back(cmd) => Back(Spell(cmd, s))
  }

  lemma {:induction false} SpellFill(out: Cmd<Span>, argv: seq<Span>, s: string)
    ensures Spell(Fill(out, argv), s) == Fill(Spell(out, s), WordsOf(s, argv))
    ensures Spans(out, s) && Spans(Exec(argv), s) ==> Spans(Fill(out, argv), s)
  {
    if out.Redir? { SpellFill(out.cmd, argv, s); }
  }

  lemma SpellOneMore(argv: seq<Span>, sp: Span, s: string)
    ensures WordsOf(s, argv + [sp]) == WordsOf(s, argv) + [WordOf(s, sp)]
  {
  }

  /** A parse result r that leaves the cursor at p agrees with what the grammar says. */
  ghost predicate Agrees(r: Result, s: string, p: nat, want: Parsed)
    requires p <= |s|
  {
    match r
    case Done(c) => Spans(c, s) && want == Ok(Spell(c, s), Lex(s, p))
    case Panic(e) => want == Err(e)
  }

  /** The character peek sees at the front of a token. */
  function Front(t: Tok): char
    requires t.Sym?
  {
    if t.c == '+' then '>' else t.c
  }

  class Shell {
    const buf: array<char>
    const es: nat
    var ps: nat

    /** The line as it was read. */
    ghost function S(): string
      requires es <= buf.Length
      reads buf
    {
      buf[..es]
    }

    ghost predicate Valid()
      reads this, buf
      ensures Valid() ==> ps <= es < buf.Length
    {
      es < buf.Length && ps <= es && buf[es] == NUL && forall i :: 0 <= i < es ==> buf[i] != NUL
    }

    /** parsecmd's strlen: the line ends at the first NUL. */
    constructor (buf: array<char>)
      requires exists i :: 0 <= i < buf.Length && buf[i] == NUL
      ensures Valid() && this.buf == buf && ps == 0
    {
      var n := 0;
      while buf[n] != NUL
        invariant n < buf.Length && (forall i :: 0 <= i < n ==> buf[i] != NUL)
        invariant exists i :: n <= i < buf.Length && buf[i] == NUL
        decreases buf.Length - n
      {
        n := n + 1;
      }
      this.buf, es, ps := buf, n, 0;
    }

    /** The loop over white space in gettoken and peek. */
    method SkipSpace(p: nat) returns (q: nat)
      requires Valid() && p <= es
      ensures q == Skip(S(), p)
    {
      q := p;
      while q < es && IsSpace(buf[q])
        invariant p <= q <= es && Skip(S(), q) == Skip(S(), p)
        decreases es - q
      {
        q := q + 1;
      }
    }

    /** gettoken's switch: the kind and the end of the token at q. */
    method Classify(q: nat) returns (ret: char, eq: nat)
      requires Valid() && q < es && !IsSpace(buf[q])
      ensures eq == TokEnd(S(), q) && IsToken(ret, q, eq, TokAt(S(), q))
    {
      var s := q;
      ret := buf[s];
      if ret == '|' || ret == '(' || ret == ')' || ret == ';' || ret == '&' || ret == '<' {
        s := s + 1;
      } else if ret == '>' {
        s := s + 1;
        if buf[s] == '>' {
          ret := '+';
          s := s + 1;
        }
      } else {
        ret := 'a';
        while s < es && !IsSpace(buf[s]) && !IsSymbol(buf[s])
          invariant q <= s <= es && WordEnd(S(), s) == WordEnd(S(), q)
        {
          s := s + 1;
        }
      }
      eq := s;
    }

    /** gettoken: the next token's kind ('a' for a word, NUL at the end) and place;
        the cursor moves past it and the white space after it. */
    method Gettoken() returns (ret: char, q: nat, eq: nat)
      requires Valid()
      modifies this`ps
      ensures Valid() && old(ps) <= ps
      ensures Lex(S(), old(ps)) == [] ==> ret == NUL && Lex(S(), ps) == []
      ensures Lex(S(), old(ps)) != [] ==>
              old(ps) < ps && Lex(S(), ps) == Lex(S(), old(ps))[1..] && IsToken(ret, q, eq, Lex(S(), old(ps))[0])
    {
      hide Skip, TokAt, TokEnd, IsWordAt, WordEnd;
      q := SkipSpace(ps);
      ret, eq := NUL, q;
      if buf[q] != NUL {
        ret, eq := Classify(q);
      }
      SkipTwice(S(), eq);
      ps := SkipSpace(eq);
    }

    ghost predicate IsToken(ret: char, q: nat, eq: nat, t: Tok)
      requires es <= buf.Length
      reads buf
    {
      match t
      case Word(w) => ret == 'a' && IsWordAt(S(), Span(q, eq)) && w == WordOf(S(), Span(q, eq))
      case Sym(c) => ret == c && ret != 'a' && ret != NUL
    }

    /** peek: is the next character one of these symbols?  Only white space is
        passed over. */
    method Peek(toks: string) returns (r: bool)
      requires Valid() && forall c :: c in toks ==> IsSymbol(c)
      modifies this`ps
      ensures Valid() && old(ps) <= ps && Lex(S(), ps) == Lex(S(), old(ps))
      ensures r <==> Lex(S(), ps) != [] && Lex(S(), ps)[0].Sym? && Front(Lex(S(), ps)[0]) in toks
      ensures toks == "" ==> (ps == es <==> Lex(S(), ps) == [])
    {
      SkipTwice(S(), ps);
      ps := SkipSpace(ps);
      r := buf[ps] != NUL && buf[ps] in toks;
    }

    /** parseredirs */
    method Parseredirs(cmd: Cmd<Span>) returns (r: Result)
      requires Valid() && Spans(cmd, S())
      modifies this`ps
      ensures Valid() && old(ps) <= ps
      ensures Agrees(r, S(), ps, ParseRedirs(Spell(cmd, S()), Lex(S(), old(ps))))
    {
      hide Lex, Valid, IsWordAt;
      ghost var want := ParseRedirs(Spell(cmd, S()), Lex(S(), ps));
      var c := cmd;
      while true
        invariant Valid() && old(ps) <= ps <= es < buf.Length && Spans(c, S())
        invariant ParseRedirs(Spell(c, S()), Lex(S(), ps)) == want
        decreases es - ps
      {
        var more := Peek("<>");
        if !more {
          return Done(c);
        }
        var tok, q0, eq0 := Gettoken();
        var kind, q, eq := Gettoken();
        if kind != 'a' {
          return Panic(MissingFile);
        }
        c := MakeRedir(c, tok, Span(q, eq));
      }
    }

    /** parseexec */
    method Parseexec() returns (r: Result)
      requires Valid()
      modifies this`ps
      ensures Valid() && old(ps) <= ps
      ensures Agrees(r, S(), ps, ParseExec(Lex(S(), old(ps))))
      decreases es - ps, 2
    {
      hide Lex, Valid, IsWordAt, ParseRedirs, ParseArgs, ParseLine;
      var block := Peek("(");
      if block {
        r := Parseblock();
        return;
      }
      assert WordsOf(S(), []) == [];
      assert Spell(Exec([]), S()) == Exec([]);
      r := Parseredirs(Exec([]));
      if r.Panic? {
        return;
      }
      r := Parseargs(r.cmd);
    }

    /** parseexec's loop over the arguments. */
    method Parseargs(out0: Cmd<Span>) returns (r: Result)
      requires Valid() && Spans(out0, S())
      modifies this`ps
      ensures Valid() && old(ps) <= ps
      ensures Agrees(r, S(), ps, ParseArgs([], Spell(out0, S()), Lex(S(), old(ps))))
    {
      hide Lex, Valid, IsWordAt, ParseRedirs;
      ghost var want := ParseArgs([], Spell(out0, S()), Lex(S(), ps));
      var argv, out := [], out0;
      assert WordsOf(S(), argv) == [];
      while true
        invariant Valid() && old(ps) <= ps <= es < buf.Length && Spans(out, S()) && Spans(Exec(argv), S()) &&
                  |argv| < MAXARGS
        invariant ParseArgs(WordsOf(S(), argv), Spell(out, S()), Lex(S(), ps)) == want
        decreases es - ps
      {
        var stop := Peek("|)&;");
        if stop {
          break;
        }
        var tok, q, eq := Gettoken();
        if tok == NUL {
          break;
        }
        if tok != 'a' {
          return Panic(Syntax);
        }
        SpellOneMore(argv, Span(q, eq), S());
        argv := argv + [Span(q, eq)];
        if |argv| >= MAXARGS {
          return Panic(TooManyArgs);
        }
        r := Parseredirs(out);
        if r.Panic? {
          return;
        }
        out := r.cmd;
      }
      SpellFill(out, argv, S());
      r := Done(Fill(out, argv));
    }

    /** parseblock; its own panic cannot happen. */
    method Parseblock() returns (r: Result)
      requires Valid() && Head(Lex(S(), ps), '(')
      modifies this`ps
      ensures Valid() && old(ps) <= ps
      ensures Agrees(r, S(), ps, ParseExec(Lex(S(), old(ps))))
      decreases es - ps, 1
    {
      hide Lex, Valid, IsWordAt;
      var open := Peek("(");
      assert open;                 // else "parseblock"
      var tok, q, eq := Gettoken();
      r := Parseline();
      if r.Panic? {
        return;
      }
      var close := Peek(")");
      if !close {
        return Panic(MissingParen);
      }
      tok, q, eq := Gettoken();
      r := Parseredirs(r.cmd);
    }

    /** parsepipe */
    method Parsepipe() returns (r: Result)
      requires Valid()
      modifies this`ps
      ensures Valid() && old(ps) <= ps
      ensures Agrees(r, S(), ps, ParsePipe(Lex(S(), old(ps))))
      decreases es - ps, 3
    {
      hide Lex, Valid, IsWordAt;
      r := Parseexec();
      if r.Panic? {
        return;
      }
      var more := Peek("|");
      if more {
        var left := r.cmd;
        var tok, q, eq := Gettoken();
        r := Parsepipe();
        if r.Done? {
          r := Done(Pipe(left, r.cmd));
        }
      }
    }

    /** parseline */
    method Parseline() returns (r: Result)
      requires Valid()
      modifies this`ps
      ensures Valid() && old(ps) <= ps
      ensures Agrees(r, S(), ps, ParseLine(Lex(S(), old(ps))))
      decreases es - ps, 4
    {
      hide Lex, Valid, IsWordAt;
      r := Parsepipe();
      if r.Panic? {
        return;
      }
      var c, tok, q, eq := r.cmd, NUL, 0, 0;
      ghost var first := ParseBacks(Spell(c, S()), Lex(S(), ps));
      while true
        invariant Valid() && old(ps) <= ps <= es < buf.Length && Spans(c, S())
        invariant ParseBacks(Spell(c, S()), Lex(S(), ps)) == first
        decreases es - ps
      {
        var back := Peek("&");
        if !back {
          break;
        }
        tok, q, eq := Gettoken();
        c := Back(c);
      }
      r := Done(c);
      var more := Peek(";");
      if more {
        tok, q, eq := Gettoken();
        r := Parseline();
        if r.Done? {
          r := Done(List(c, r.cmd));
        }
      }
    }

    /** nulterminate: NULs go only to the ends of the words of cmd. */
    method Nulterminate(cmd: Cmd<Span>, ghost s: string)
      requires Spans(cmd, s) && Cut(buf[..], s)
      modifies buf
      ensures Cut(buf[..], s)
      ensures forall i: nat :: i < buf.Length ==> buf[i] == if i in Ends(cmd) then NUL else old(buf[i])
      decreases cmd
    {
      match cmd
      case Exec(argv) =>
        var i := 0;
        while i < |argv|
          invariant i <= |argv| && Cut(buf[..], s)
          invariant forall x: nat :: x < buf.Length ==>
                    buf[x] == if exists j :: 0 <= j < i && argv[j].eq == x then NUL else old(buf[x])
        {
          buf[argv[i].eq] := NUL;
          i := i + 1;
        }
      case Redir(sub, file, mode, fd) =>
        Nulterminate(sub, s);
        buf[file.eq] := NUL;
      case Pipe(l, r) =>
        Nulterminate(l, s);
        Nulterminate(r, s);
      case List(l, r) =>
        Nulterminate(l, s);
        Nulterminate(r, s);
      case Back(sub) =>
        Nulterminate(sub, s);
    }

    /** parsecmd: the tree that the language gives the line, its words cut out of the
        buffer as C strings; or a panic, exactly when the line is not in the language. */
    method Parsecmd() returns (r: Result)
      requires Valid() && ps == 0
      modifies this`ps, buf
      ensures r.Panic? ==> ParseCmd(Lex(old(S()), 0)) == Err(r.error) && buf[..] == old(buf[..])
      ensures r.Done? ==> ParseCmd(Lex(old(S()), 0)) == Ok(CTree(r.cmd, buf[..]), [])
      ensures r.Done? ==> exists ts :: Spells(old(S()), ts) && IsLine(ts, CTree(r.cmd, buf[..]))
      ensures r.Panic? ==> forall ts, c :: Spells(old(S()), ts) ==> !IsLine(ts, c)
      ensures forall i :: 0 <= i < buf.Length && buf[i] != old(buf[i]) ==>
              buf[i] == NUL && i < es && !IsWordChar(old(buf[i]))
    {
      hide Lex, IsWordAt, Spells, IsLine, ParseCmd;
      ghost var s := S();
      r := Parseline();
      ParseCmdIs(s);
      if r.Panic? {
        NotALine(s);
        return;
      }
      var none := Peek("");
      if ps != es {
        NotALine(s);
        return Panic(Leftovers);
      }
      EndsInside(r.cmd, s);
      Nulterminate(r.cmd, s);
      CTreeIsSpelt(r.cmd, buf[..], s);
      LexIff(s, Lex(s, 0));
      ParseCmdIff(Lex(s, 0), CTree(r.cmd, buf[..]));
    }
  }

  lemma ParseCmdIs(s: string)
    ensures var r := ParseLine(Lex(s, 0));
            ParseCmd(Lex(s, 0)) == if r.Ok? && r.rest != [] then Parsed.Err(Leftovers) else r
  {
  }

  /** A line that parsecmd rejects is not in the language. */
  lemma NotALine(s: string)
    requires ParseCmd(Lex(s, 0)).Err?
    ensures forall ts, c :: Spells(s, ts) ==> !IsLine(ts, c)
  {
    hide *;
    forall ts, c | Spells(s, ts) ensures !IsLine(ts, c) {
      LexIff(s, ts);
      ParseCmdIff(ts, c);
    }
  }

  /** The buffer b is the line s with some of its white space and symbols, and the
      end, turned into NULs. */
  predicate Cut(b: seq<char>, s: string) {
    && |s| < |b| && b[|s|] == NUL
    && forall i :: 0 <= i < |s| ==> b[i] == s[i] || (b[i] == NUL && !IsWordChar(s[i]))
  }

  /** Where the words of c end. */
  function Ends(c: Cmd<Span>): set<nat> {
    match c
    case Exec(argv) => set j | 0 <= j < |argv| :: argv[j].eq
    case Redir(cmd, file, _, _) => Ends(cmd) + {file.eq}
    case Pipe(l, r) => Ends(l) + Ends(r)
    case List(l, r) => Ends(l) + Ends(r)
    case Back(cmd) => Ends(cmd)
  }

  lemma {:induction false} EndsInside(c: Cmd<Span>, s: string)
    requires Spans(c, s)
    ensures forall e :: e in Ends(c) ==> e <= |s|
  {
    match c
    case Exec(argv) =>
    case Redir(cmd, file, mode, fd) => EndsInside(cmd, s);
    case Pipe(l, r) => EndsInside(l, s); EndsInside(r, s);
    case List(l, r) => EndsInside(l, s); EndsInside(r, s);
    case Back(cmd) => EndsInside(cmd, s);
  }

  /** The C string at q. */
  function CStr(b: seq<char>, q: nat): string
    decreases |b| - q
  {
    if q >= |b| || b[q] == NUL then "" else [b[q]] + CStr(b, q + 1)
  }

  /** The tree as runcmd sees it: each word is the C string where it starts. */
  function CTree(c: Cmd<Span>, b: seq<char>): Cmd<string> {
    match c
    case Exec(argv) => Exec(seq(|argv|, i requires 0 <= i < |argv| => CStr(b, argv[i].q)))
    case Redir(cmd, file, mode, fd) => Redir(CTree(cmd, b), CStr(b, file.q), mode, fd)
    case Pipe(l, r) => Pipe(CTree(l, b), CTree(r, b))
    case List(l, r) => List(CTree(l, b), CTree(r, b))
    case Back(cmd) => Back(CTree(cmd, b))
  }

  /** A word whose end has been cut is exactly the C string at its start. */
  lemma {:induction false} CStrIsWord(b: seq<char>, s: string, q: nat, eq: nat)
    requires Cut(b, s) && q <= eq <= |s| && b[eq] == NUL
    requires forall i :: q <= i < eq ==> IsWordChar(s[i]) && s[i] != NUL
    ensures CStr(b, q) == s[q..eq]
    decreases eq - q
  {
    if q < eq {
      CStrIsWord(b, s, q + 1, eq);
      assert s[q..eq] == [s[q]] + s[q + 1..eq];
    }
  }

  lemma WordCut(b: seq<char>, s: string, sp: Span)
    requires Cut(b, s) && IsWordAt(s, sp) && b[sp.eq] == NUL && forall i :: 0 <= i < |s| ==> s[i] != NUL
    ensures CStr(b, sp.q) == WordOf(s, sp)
  {
    CStrIsWord(b, s, sp.q, sp.eq);
  }

  /** After nulterminate every argv and file string is exactly its token. */
  lemma {:induction false} CTreeIsSpelt(c: Cmd<Span>, b: seq<char>, s: string)
    requires Spans(c, s) && Cut(b, s) && (forall i :: 0 <= i < |s| ==> s[i] != NUL)
    requires forall e :: e in Ends(c) && e < |b| ==> b[e] == NUL
    ensures CTree(c, b) == Spell(c, s)
  {
    match c
    case Exec(argv) =>
      forall i | 0 <= i < |argv| ensures CStr(b, argv[i].q) == WordOf(s, argv[i]) {
        assert argv[i].eq in Ends(c);
        WordCut(b, s, argv[i]);
      }
    case Redir(cmd, file, mode, fd) =>
      CTreeIsSpelt(cmd, b, s);
      assert file.eq in Ends(c);
      WordCut(b, s, file);
    case Pipe(l, r) => CTreeIsSpelt(l, b, s); CTreeIsSpelt(r, b, s);
    case List(l, r) => CTreeIsSpelt(l, b, s); CTreeIsSpelt(r, b, s);
    case Back(cmd) => CTreeIsSpelt(cmd, b, s);
  }
}
