/** The shell's tokens in a character string (gettoken and peek in sh.c). */
module ShLex {
  import opened ShGrammar

  predicate IsSpace(c: char) {
    c == ' ' || c == '\t' || c == '\r' || c == '\n' || c == 11 as char
  }

  predicate IsSymbol(c: char) {
    c == '<' || c == '|' || c == '>' || c == '&' || c == ';' || c == '(' || c == ')'
  }

  predicate IsWordChar(c: char) {
    !IsSpace(c) && !IsSymbol(c)
  }

  /** The first position from p on that is not white space. */
  function Skip(s: string, p: nat): (q: nat)
    requires p <= |s|
    ensures p <= q <= |s| && (q < |s| ==> !IsSpace(s[q])) && forall i :: p <= i < q ==> IsSpace(s[i])
    decreases |s| - p
  {
    if p < |s| && IsSpace(s[p]) then Skip(s, p + 1) else p
  }

  /** The end of the word at p. */
  function WordEnd(s: string, p: nat): (q: nat)
    requires p <= |s|
    ensures p <= q <= |s| && (q < |s| ==> !IsWordChar(s[q])) && forall i :: p <= i < q ==> IsWordChar(s[i])
    decreases |s| - p
  {
    if p < |s| && IsWordChar(s[p]) then WordEnd(s, p + 1) else p
  }

  /** The end of the token at q. */
  function TokEnd(s: string, q: nat): (e: nat)
    requires q < |s| && !IsSpace(s[q])
    ensures q < e <= |s|
  {
    if s[q] == '>' && q + 1 < |s| && s[q + 1] == '>' then q + 2
    else if IsSymbol(s[q]) then q + 1
    else WordEnd(s, q)
  }

  function TokAt(s: string, q: nat): Tok
    requires q < |s| && !IsSpace(s[q])
  {
    if s[q] == '>' && q + 1 < |s| && s[q + 1] == '>' then Sym('+')
    else if IsSymbol(s[q]) then Sym(s[q])
    else Word(s[q..WordEnd(s, q)])
  }

  /** The tokens from p on. */
  function Lex(s: string, p: nat): seq<Tok>
    requires p <= |s|
    decreases |s| - p
  {
    var q := Skip(s, p);
    if q == |s| then [] else [TokAt(s, q)] + Lex(s, TokEnd(s, q))
  }

  lemma {:induction false} SkipTwice(s: string, p: nat)
    requires p <= |s|
    ensures Skip(s, Skip(s, p)) == Skip(s, p) && Lex(s, Skip(s, p)) == Lex(s, p)
    decreases |s| - p
  {
    if p < |s| && IsSpace(s[p]) { SkipTwice(s, p + 1); }
  }

  /** Without NUL characters every word is legal. */
  lemma {:induction false} LexLegal(s: string, p: nat)
    requires p <= |s| && forall i :: 0 <= i < |s| ==> s[i] != 0 as char
    ensures LegalToks(Lex(s, p))
    decreases |s| - p
  {
    var q := Skip(s, p);
    if q < |s| {
      LexLegal(s, TokEnd(s, q));
      var t := TokAt(s, q);
      if t.Word? {
        forall c | c in t.w ensures LegalChar(c) {
          var i :| 0 <= i < |t.w| && t.w[i] == c;
          assert IsWordChar(s[q + i]);
        }
      }
    }
  }

  // ---------- printing tokens ----------

  function Text(t: Tok): string {
    match t
    case Word(w) => w
    case Sym(c) => if c == '+' then ">>" else [c]
  }

  /** The tokens with a blank after each. */
  function Print(ts: seq<Tok>): string {
    if ts == [] then "" else Text(ts[0]) + " " + Print(ts[1..])
  }

  predicate Printable(t: Tok) {
    match t
    case Word(w) => LegalWord(w)
    case Sym(c) => c == '+' || IsSymbol(c)
  }

  lemma {:induction false} SkipShift(a: string, s: string, p: nat)
    requires p <= |s|
    ensures Skip(a + s, |a| + p) == |a| + Skip(s, p)
    decreases |s| - p
  {
    if p < |s| && IsSpace(s[p]) { SkipShift(a, s, p + 1); }
  }

  lemma {:induction false} WordEndShift(a: string, s: string, p: nat)
    requires p <= |s|
    ensures WordEnd(a + s, |a| + p) == |a| + WordEnd(s, p)
    decreases |s| - p
  {
    if p < |s| && IsWordChar(s[p]) { WordEndShift(a, s, p + 1); }
  }

  lemma SliceShift(a: string, s: string, lo: nat, hi: nat)
    requires lo <= hi <= |s|
    ensures (a + s)[|a| + lo..|a| + hi] == s[lo..hi]
  {
    var x, y := (a + s)[|a| + lo..|a| + hi], s[lo..hi];
    assert |x| == |y|;
    forall i | 0 <= i < |x| ensures x[i] == y[i] {
      assert (a + s)[|a| + (lo + i)] == s[lo + i];
    }
  }

  lemma TokShift(a: string, s: string, q: nat)
    requires q < |s| && !IsSpace(s[q])
    ensures (a + s)[|a| + q] == s[q]
    ensures TokAt(a + s, |a| + q) == TokAt(s, q) && TokEnd(a + s, |a| + q) == |a| + TokEnd(s, q)
  {
    assert (a + s)[|a| + q] == s[q];
    assert q + 1 < |s| ==> (a + s)[|a| + (q + 1)] == s[q + 1];
    WordEndShift(a, s, q);
    SliceShift(a, s, q, WordEnd(s, q));
  }

  /** What comes before does not matter. */
  lemma {:induction false} LexShift(a: string, s: string, p: nat)
    requires p <= |s|
    ensures Lex(a + s, |a| + p) == Lex(s, p)
    decreases |s| - p
  {
    hide Skip, TokAt, TokEnd;
    SkipShift(a, s, p);
    var q := Skip(s, p);
    if q < |s| {
      TokShift(a, s, q);
      LexShift(a, s, TokEnd(s, q));
    }
  }

  lemma {:induction false} WordStops(w: string, rest: string, p: nat)
    requires p <= |w| && rest != "" && !IsWordChar(rest[0]) && forall i :: 0 <= i < |w| ==> IsWordChar(w[i])
    ensures WordEnd(w + rest, p) == |w|
    decreases |w| - p
  {
    if p < |w| { WordStops(w, rest, p + 1); }
  }

  lemma LegalWordChars(w: string)
    requires LegalWord(w)
    ensures forall i :: 0 <= i < |w| ==> IsWordChar(w[i])
  {
    forall i | 0 <= i < |w| ensures IsWordChar(w[i]) {
      assert LegalChar(w[i]);
    }
  }

  /** A printed token followed by a blank is read back. */
  lemma TokPrinted(t: Tok, rest: string)
    requires Printable(t)
    ensures var s := Text(t) + " " + rest;
            s != "" && Skip(s, 0) == 0 && TokAt(s, 0) == t && TokEnd(s, 0) == |Text(t)|
  {
    var s := Text(t) + (" " + rest);
    assert s == Text(t) + " " + rest;
    if t.Word? {
      LegalWordChars(t.w);
      WordStops(t.w, " " + rest, 0);
      assert s[0] == t.w[0] && s[..|t.w|] == t.w;
    } else {
      assert s[0] == Text(t)[0] && (t.c != '+' ==> s[1] == ' ');
    }
  }

  lemma BlankSkipped(s: string)
    ensures Lex(" " + s, 0) == Lex(s, 0)
  {
    LexShift(" ", s, 0);
    assert Skip(" " + s, 0) == Skip(" " + s, 1);
  }

  /** Reading back what was printed. */
  lemma {:induction false} LexPrint(ts: seq<Tok>)
    requires forall t :: t in ts ==> Printable(t)
    ensures Lex(Print(ts), 0) == ts
  {
    if ts != [] {
      var rest := Print(ts[1..]);
      TokPrinted(ts[0], rest);
      assert Print(ts) == Text(ts[0]) + (" " + rest);
      LexShift(Text(ts[0]), " " + rest, 0);
      BlankSkipped(rest);
      LexPrint(ts[1..]);
    }
  }

  // ---------- what a line spells ----------

  predicate White(s: string) {
    forall i :: 0 <= i < |s| ==> s[i] in " \t\r\n" || s[i] == 11 as char
  }

  /** A word, or a symbol; ">>" is the token '+'. */
  predicate IsText(t: Tok, s: string) {
    match t
    case Word(w) => w == s && s != "" && forall i :: 0 <= i < |s| ==> !White([s[i]]) && s[i] !in "<|>&;()"
    case Sym(c) => if c == '+' then s == ">>" else s == [c] && c in "<|>&;()"
  }

  /** No longer text is the same kind of token: a word ends before white space or a
      symbol, and a ">" is not followed by another. */
  predicate Longest(t: Tok, rest: string) {
    rest != "" ==>
      match t
      case Word(_) => White([rest[0]]) || rest[0] in "<|>&;()"
      case Sym(c) => c == '>' ==> rest[0] != '>'
  }

  /** The line is the text of the tokens, with white space before, between and after
      them where one likes. */
  ghost predicate Spells(s: string, ts: seq<Tok>)
    decreases |ts|
  {
    if ts == [] then White(s)
    else exists i, j :: 0 <= i < j <= |s| && White(s[..i]) && IsText(ts[0], s[i..j]) && Longest(ts[0], s[j..]) &&
                        Spells(s[j..], ts[1..])
  }

  lemma CharKinds(c: char)
    ensures White([c]) <==> IsSpace(c)
    ensures c in "<|>&;()" <==> IsSymbol(c)
  {
    assert [c][0] == c;
  }

  lemma {:induction false} SkipIs(s: string, i: nat)
    requires i <= |s| && White(s[..i]) && (i < |s| ==> !IsSpace(s[i]))
    ensures Skip(s, 0) == i
  {
    var q := Skip(s, 0);
    if q < i {
      assert s[..i][q] == s[q];
      CharKinds(s[q]);
    }
  }

  lemma {:induction false} WordEndIs(s: string, i: nat, j: nat)
    requires i <= j <= |s| && (forall k :: i <= k < j ==> IsWordChar(s[k])) && (j < |s| ==> !IsWordChar(s[j]))
    ensures WordEnd(s, i) == j
  {
  }

  /** The token at q is the only one that can be spelt from there. */
  lemma TokIs(s: string, q: nat, j: nat, t: Tok)
    requires q < |s| && !IsSpace(s[q]) && q < j <= |s|
    ensures TokAt(s, q) == t && TokEnd(s, q) == j <==> IsText(t, s[q..j]) && Longest(t, s[j..])
  {
    var text := s[q..j];
    assert text[0] == s[q];
    CharKinds(s[q]);
    forall k | q <= k < |s| ensures (White([s[k]]) <==> IsSpace(s[k])) && (s[k] in "<|>&;()" <==> IsSymbol(s[k])) {
      CharKinds(s[k]);
    }
    if t.Word? && IsText(t, text) && Longest(t, s[j..]) {
      forall k | q <= k < j ensures IsWordChar(s[k]) { assert text[k - q] == s[k]; }
      assert j < |s| ==> s[j..][0] == s[j];
      WordEndIs(s, q, j);
    } else if t.Sym? && IsText(t, text) && Longest(t, s[j..]) {
      assert j < |s| ==> s[j..][0] == s[j];
      assert t.c == '+' ==> text[1] == s[q + 1];
    } else if TokAt(s, q) == t && TokEnd(s, q) == j {
      TokIsText(s, q);
    }
  }

  lemma TokIsText(s: string, q: nat)
    requires q < |s| && !IsSpace(s[q])
    ensures IsText(TokAt(s, q), s[q..TokEnd(s, q)]) && Longest(TokAt(s, q), s[TokEnd(s, q)..])
  {
    var j := TokEnd(s, q);
    var text := s[q..j];
    forall k | q <= k < |s| ensures (White([s[k]]) <==> IsSpace(s[k])) && (s[k] in "<|>&;()" <==> IsSymbol(s[k])) {
      CharKinds(s[k]);
    }
    assert text[0] == s[q] && (j < |s| ==> s[j..][0] == s[j]);
    if TokAt(s, q).Word? {
      forall k | 0 <= k < |text| ensures !White([text[k]]) && text[k] !in "<|>&;()" { assert text[k] == s[q + k]; }
    } else if TokAt(s, q).c == '+' {
      assert text == [s[q], s[q + 1]];
    } else {
      assert text == [s[q]];
    }
  }

  lemma LexRest(s: string, j: nat)
    requires j <= |s|
    ensures Lex(s, j) == Lex(s[j..], 0)
  {
    assert s == s[..j] + s[j..];
    LexShift(s[..j], s[j..], 0);
  }

  /** gettoken and peek read exactly the tokens that the line spells. */
  lemma LexIff(s: string, ts: seq<Tok>)
    ensures Lex(s, 0) == ts <==> Spells(s, ts)
  {
    hide *;
    if Spells(s, ts) {
      SpellsLexed(s, ts);
    } else if Lex(s, 0) == ts {
      LexedSpells(s);
    }
  }

  lemma {:induction false} SpellsLexed(s: string, ts: seq<Tok>)
    requires Spells(s, ts)
    ensures Lex(s, 0) == ts
    decreases |ts|
  {
    hide TokAt, TokEnd, IsText, Longest;
    if ts == [] {
      assert s[..|s|] == s;
      SkipIs(s, |s|);
    } else {
      var i, j :| 0 <= i < j <= |s| && White(s[..i]) && IsText(ts[0], s[i..j]) && Longest(ts[0], s[j..]) &&
                  Spells(s[j..], ts[1..]);
      TextStarts(ts[0], s, i, j);
      SkipIs(s, i);
      TokIs(s, i, j, ts[0]);
      SpellsLexed(s[j..], ts[1..]);
      LexRest(s, j);
    }
  }

  lemma TextStarts(t: Tok, s: string, i: nat, j: nat)
    requires i < j <= |s| && IsText(t, s[i..j])
    ensures !IsSpace(s[i])
  {
    assert s[i..j][0] == s[i];
    CharKinds(s[i]);
  }

  lemma {:induction false} LexedSpells(s: string)
    ensures Spells(s, Lex(s, 0))
    decreases |s|
  {
    hide TokAt, TokEnd, IsText, Longest;
    var q := Skip(s, 0);
    forall k | 0 <= k < q ensures White([s[k]]) { CharKinds(s[k]); }
    assert White(s[..q]) by {
      forall k | 0 <= k < q ensures s[..q][k] in " \t\r\n" || s[..q][k] == 11 as char {
        assert White([s[k]]) && [s[k]][0] == s[..q][k];
      }
    }
    if q == |s| {
      assert s[..q] == s;
    } else {
      var j, ts := TokEnd(s, q), Lex(s, 0);
      TokIsText(s, q);
      LexedSpells(s[j..]);
      LexRest(s, j);
      assert ts[1..] == Lex(s[j..], 0) && ts[0] == TokAt(s, q);
    }
  }

  /** Everything Show writes can be read back. */
  lemma {:induction false} ShowPrintable(c: Cmd<string>)
    requires Legal(c)
    ensures forall t :: t in Show(c) ==> Printable(t)
    ensures forall t :: t in ShowOperand(c) ==> Printable(t)
  {
    match c
    case Exec(argv) =>
    case Redir(cmd, file, mode, fd) => ShowPrintable(cmd);
    case Pipe(l, r) => ShowPrintable(l); ShowPrintable(r);
    case List(l, r) => ShowPrintable(l); ShowPrintable(r);
    case Back(cmd) => ShowPrintable(cmd);
  }

  /** The round trip on characters: every command tree of legal words with at most
      MAXARGS - 1 arguments is what its parenthesised printing parses to. */
  lemma ParsePrinted(c: Cmd<string>)
    requires Legal(c)
    ensures ParseCmd(Lex(Print(Show(c)), 0)) == Ok(c, [])
  {
    ShowPrintable(c);
    LexPrint(Show(c));
    ParseShow(c);
  }
}
