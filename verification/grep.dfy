/** The regular expression matcher of grep.c.

    C strings are strings without NUL characters; a pointer into one is the rest of
    it from there on. */
module Grep {

  // ---------- what a pattern means ----------

  datatype Item = Single(c: char) | Star(c: char) | End

  /** "x*" binds before anything else, so "$*" and ".*" are stars; '$' is special
      only at the very end; '^' past the front, and '*' in front, are ordinary. */
  function Items(re: string): (items: seq<Item>)
    ensures forall i :: 0 <= i < |items| - 1 ==> items[i] != End
  {
    if re == "" then []
    else if |re| > 1 && re[1] == '*' then [Star(re[0])] + Items(re[2..])
    else if re == "$" then [End]
    else [Single(re[0])] + Items(re[1..])
  }

  predicate Fits(c: char, x: char) {
    c == '.' || c == x
  }

  predicate AllFit(c: char, s: string) {
    forall i :: 0 <= i < |s| ==> Fits(c, s[i])
  }

  predicate InItem(item: Item, s: string) {
    match item
    case Single(c) => |s| == 1 && Fits(c, s[0])
    case Star(c) => AllFit(c, s)
    case End => s == ""
  }

  /** s is a concatenation of one string for each item. */
  ghost predicate InLang(items: seq<Item>, s: string) {
    if items == [] then s == ""
    else exists k :: 0 <= k <= |s| && InItem(items[0], s[..k]) && InLang(items[1..], s[k..])
  }

  predicate Anchored(items: seq<Item>) {
    items != [] && items[|items| - 1] == End
  }

  /** A prefix of text, all of it if the pattern ends in '$', is in the language. */
  ghost predicate Here(items: seq<Item>, text: string) {
    exists j :: 0 <= j <= |text| && PrefixIn(items, text, j)
  }

  ghost predicate PrefixIn(items: seq<Item>, text: string, j: nat)
    requires j <= |text|
  {
    InLang(items, text[..j]) && (Anchored(items) ==> j == |text|)
  }

  // ---------- one item at a time ----------

  lemma HereNone(text: string)
    ensures Here([], text)
  {
    assert PrefixIn([], text, 0);
  }

  lemma HereEnd(text: string)
    ensures Here([End], text) <==> text == ""
  {
    assert InItem(End, ""[..0]) && InLang([End][1..], ""[0..]);
    assert text == "" ==> text[..0] == "" && PrefixIn([End], text, 0);
    if Here([End], text) {
      var j :| 0 <= j <= |text| && PrefixIn([End], text, j);
      var k :| 0 <= k <= j && InItem(End, text[..j][..k]) && InLang([End][1..], text[..j][k..]);
      assert |text[..j][..k]| == k && |text[..j][k..]| == j - k;
    }
  }

  /** Taking k characters off text for the first item. */
  lemma HereSplit(item: Item, rest: seq<Item>, text: string, k: nat)
    requires item != End && k <= |text| && InItem(item, text[..k]) && Here(rest, text[k..])
    ensures Here([item] + rest, text)
  {
    var items := [item] + rest;
    var j :| 0 <= j <= |text| - k && PrefixIn(rest, text[k..], j);
    var s := text[..k + j];
    assert s[..k] == text[..k] && s[k..] == text[k..][..j] && items[1..] == rest;
    assert InItem(items[0], s[..k]) && InLang(items[1..], s[k..]);
    assert PrefixIn(items, text, k + j);
  }

  lemma HereSplits(item: Item, rest: seq<Item>, text: string) returns (k: nat)
    requires item != End && Here([item] + rest, text)
    ensures k <= |text| && InItem(item, text[..k]) && Here(rest, text[k..])
  {
    var items := [item] + rest;
    var j :| 0 <= j <= |text| && PrefixIn(items, text, j);
    var s := text[..j];
    k :| 0 <= k <= |s| && InItem(items[0], s[..k]) && InLang(items[1..], s[k..]);
    assert s[..k] == text[..k] && s[k..] == text[k..][..j - k] && items[1..] == rest;
    assert PrefixIn(rest, text[k..], j - k);
  }

  lemma HereSingle(c: char, rest: seq<Item>, text: string)
    ensures Here([Single(c)] + rest, text) <==> text != "" && Fits(c, text[0]) && Here(rest, text[1..])
  {
    if Here([Single(c)] + rest, text) {
      var k := HereSplits(Single(c), rest, text);
    } else if text != "" && Fits(c, text[0]) && Here(rest, text[1..]) {
      HereSplit(Single(c), rest, text, 1);
    }
  }

  /** c* followed by rest: some number of fitting characters, then rest. */
  ghost predicate StarHere(c: char, rest: seq<Item>, text: string) {
    exists k :: 0 <= k <= |text| && AllFit(c, text[..k]) && Here(rest, text[k..])
  }

  lemma HereStar(c: char, rest: seq<Item>, text: string)
    ensures Here([Star(c)] + rest, text) <==> StarHere(c, rest, text)
  {
    if Here([Star(c)] + rest, text) {
      var k := HereSplits(Star(c), rest, text);
      assert AllFit(c, text[..k]) && Here(rest, text[k..]);
    }
    if StarHere(c, rest, text) {
      var k :| 0 <= k <= |text| && AllFit(c, text[..k]) && Here(rest, text[k..]);
      HereSplit(Star(c), rest, text, k);
    }
  }

  // ---------- what a pattern says, character by character ----------

  /** Some number of characters of text, none included, that c fits, and then re. */
  ghost predicate StarThen(c: char, re: string, text: string) {
    exists k :: 0 <= k <= |text| && (forall i :: 0 <= i < k ==> c == '.' || text[i] == c) && Here(Items(re), text[k..])
  }

  /** The four cases of a pattern at the beginning of a text; by recursion on the pattern
      they leave nothing open. */
  lemma HereByChars(re: string, text: string)
    ensures re == "" ==> Here(Items(re), text)
    ensures |re| > 1 && re[1] == '*' ==> (Here(Items(re), text) <==> StarThen(re[0], re[2..], text))
    ensures re == "$" ==> (Here(Items(re), text) <==> text == "")
    ensures re != "" && re != "$" && !(|re| > 1 && re[1] == '*') ==>
              (Here(Items(re), text) <==>
               text != "" && (re[0] == '.' || re[0] == text[0]) && Here(Items(re[1..]), text[1..]))
  {
    if re == "" {
      HereNone(text);
    } else if |re| > 1 && re[1] == '*' {
      HereStar(re[0], Items(re[2..]), text);
      forall k | 0 <= k <= |text| 
        ensures AllFit(re[0], text[..k]) <==> forall i :: 0 <= i < k ==> re[0] == '.' || text[i] == re[0] {
        assert forall i :: 0 <= i < k ==> text[..k][i] == text[i];
      }
    } else if re == "$" {
      HereEnd(text);
    } else {
      HereSingle(re[0], Items(re[1..]), text);
    }
  }

  /** The characters that spell an item. */
  function Spell(items: seq<Item>): string {
    if items == [] then ""
    else (match items[0]
          case Single(c) => [c]
          case Star(c) => [c, '*']
          case End => "$") + Spell(items[1..])
  }

  function First(item: Item): char {
    if item.End? then '$' else item.c
  }

  /** No item is spelt like another one: a '*' never follows a single character, and a
      '$' at the end is End. */
  predicate Plain(items: seq<Item>) {
    && (forall i :: 0 <= i < |items| - 1 ==> items[i] != End)
    && (items != [] ==> items[|items| - 1] != Single('$'))
    && forall i :: 0 <= i < |items| - 1 && items[i].Single? ==> First(items[i + 1]) != '*'
  }

  lemma SpellFirst(items: seq<Item>)
    ensures items == [] <==> Spell(items) == ""
    ensures items != [] ==> Spell(items)[0] == First(items[0])
  {
  }

  /** Every list of plain items is what its spelling reads as. */
  lemma {:induction false} ItemsOfSpelling(items: seq<Item>)
    requires Plain(items)
    ensures Items(Spell(items)) == items
  {
    if items != [] {
      var rest := items[1..];
      assert Plain(rest) by { assert rest != [] ==> rest[|rest| - 1] == items[|items| - 1]; }
      ItemsOfSpelling(rest);
      SpellFirst(rest);
      var re := Spell(items);
      match items[0]
      case Single(c) => assert re[1..] == Spell(rest);
      case Star(c) => assert re[2..] == Spell(rest);
      case End => assert rest == [] && re == "$";
    }
  }

  lemma PlainCons(item: Item, rest: seq<Item>)
    requires Plain(rest) && (item == End ==> rest == []) && (rest == [] ==> item != Single('$'))
    requires rest != [] && item.Single? ==> First(rest[0]) != '*'
    ensures Plain([item] + rest)
  {
    var items := [item] + rest;
    forall i | 0 <= i < |items| - 1 ensures items[i] != End && (items[i].Single? ==> First(items[i + 1]) != '*') {
      assert i > 0 ==> items[i] == rest[i - 1];
      assert items[i + 1] == rest[i];
    }
  }

  lemma SpellCons(item: Item, rest: seq<Item>)
    ensures Spell([item] + rest) ==
            (if item.Single? then [item.c] else if item.Star? then [item.c, '*'] else "$") + Spell(rest)
  {
    assert ([item] + rest)[1..] == rest;
  }

  /** And every pattern is the spelling of plain items, which are then the only ones. */
  lemma {:induction false} SpellingOfItems(re: string)
    ensures Plain(Items(re)) && Spell(Items(re)) == re
    decreases |re|
  {
    hide Plain, Spell;
    assert Plain([]) && Spell([]) == "" by { Nothing(); }
    if re == "" {
    } else if |re| > 1 && re[1] == '*' {
      SpellingOfItems(re[2..]);
      PlainCons(Star(re[0]), Items(re[2..]));
      SpellCons(Star(re[0]), Items(re[2..]));
    } else if re == "$" {
      PlainCons(End, []);
      SpellCons(End, []);
      assert [End] + [] == [End];
    } else {
      SpellingOfItems(re[1..]);
      SpellFirst(Items(re[1..]));
      PlainCons(Single(re[0]), Items(re[1..]));
      SpellCons(Single(re[0]), Items(re[1..]));
    }
  }

  lemma Nothing()
    ensures Plain([]) && Spell([]) == ""
  {
  }

  // ---------- the matcher ----------

  /** match: the pattern occurs in the text, at the front if it starts with '^', else
      anywhere. */
  method Match(re: string, text0: string) returns (r: bool)
    ensures re != "" && re[0] == '^' ==> (r <==> Here(Items(re[1..]), text0))
    ensures re == "" || re[0] != '^' ==> (r <==> exists i :: 0 <= i <= |text0| && Here(Items(re), text0[i..]))
  {
    if re != "" && re[0] == '^' {
      r := Matchhere(re[1..], text0);
      return;
    }
    var t := 0;
    while true
      invariant 0 <= t <= |text0|
      invariant forall i :: 0 <= i < t ==> !Here(Items(re), text0[i..])
      decreases |text0| - t
    {
      r := Matchhere(re, text0[t..]);
      if r {
        return true;
      }
      if t == |text0| {
        return false;
      }
      t := t + 1;
    }
  }

  /** matchhere: re at the beginning of text. */
  method Matchhere(re: string, text: string) returns (r: bool)
    ensures r <==> Here(Items(re), text)
    decreases |re|, 0
  {
    if re == "" {
      HereNone(text);
      return true;
    }
    if |re| > 1 && re[1] == '*' {
      HereStar(re[0], Items(re[2..]), text);
      r := Matchstar(re[0], re[2..], text);
      return;
    }
    if re[0] == '$' && |re| == 1 {
      assert re == "$";
      HereEnd(text);
      return text == "";
    }
    HereSingle(re[0], Items(re[1..]), text);
    if text != "" && (re[0] == '.' || re[0] == text[0]) {
      r := Matchhere(re[1..], text[1..]);
      return;
    }
    return false;
  }

  /** matchstar: c*re at the beginning of text. */
  method Matchstar(c: char, re: string, text: string) returns (r: bool)
    ensures r <==> StarHere(c, Items(re), text)
    decreases |re|, 1
  {
    var t := 0;
    while true
      invariant 0 <= t <= |text| && AllFit(c, text[..t])
      invariant forall k :: 0 <= k < t ==> !Here(Items(re), text[k..])
      decreases |text| - t
    {
      r := Matchhere(re, text[t..]);
      if r {
        return true;
      }
      if t == |text| || !(text[t] == c || c == '.') {
        assert forall k :: t < k <= |text| ==> !Fits(c, text[..k][t]);
        return false;
      }
      t := t + 1;
    }
  }
}
