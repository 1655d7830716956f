/** user/grep.c: the matcher of chapter 9 of The Practice of Programming. Pattern and text are
    C strings, given here without the terminating NUL. */
module Grep {
  // ---- what a pattern means ----

  /** '.' stands for any character, alone or under a star. */
  datatype Item = One(c: char) | Star(c: char)

  datatype Pattern = Pattern(items: seq<Item>, toEnd: bool)

  function Parse(re: string): Pattern {
    if re == "" then Pattern([], false)
    else if |re| >= 2 && re[1] == '*' then Cons(Star(re[0]), Parse(re[2..]))
    else if re == "$" then Pattern([], true)
    else Cons(One(re[0]), Parse(re[1..]))
  }

  function Cons(it: Item, p: Pattern): Pattern {
    p.(items := [it] + p.items)
  }

  predicate CharOk(c: char, x: char) {
    c == '.' || c == x
  }

  ghost predicate PartOk(it: Item, part: string) {
    match it
    case One(c) => |part| == 1 && CharOk(c, part[0])
    case Star(c) => forall k :: 0 <= k < |part| ==> CharOk(c, part[k])
  }

  function Concat(parts: seq<string>): string {
    if parts == [] then "" else parts[0] + Concat(parts[1..])
  }

  ghost predicate PartsOk(items: seq<Item>, parts: seq<string>) {
    |parts| == |items| && forall i :: 0 <= i < |items| ==> PartOk(items[i], parts[i])
  }

  /** The word can be cut into one part per item, each part fitting its item. */
  ghost predicate InLanguage(items: seq<Item>, word: string) {
    exists parts :: PartsOk(items, parts) && Concat(parts) == word
  }

  /** The pattern matches at the front of the text: some prefix, all of it under a final '$',
      is in the language. */
  ghost predicate MatchesFront(p: Pattern, text: string) {
    exists k :: FrontOk(p, text, k)
  }

  ghost predicate FrontOk(p: Pattern, text: string, k: int) {
    0 <= k <= |text| && (p.toEnd ==> k == |text|) && InLanguage(p.items, text[..k])
  }

  /** The first j characters fit the item and the pattern matches right after. */
  ghost predicate CutOk(it: Item, p: Pattern, text: string, j: int) {
    0 <= j <= |text| && PartOk(it, text[..j]) && MatchesFront(p, text[j..])
  }

  // ---- one item at a time ----

  lemma EmptyLanguage(word: string)
    ensures InLanguage([], word) <==> word == ""
  {
    if word == "" {
      assert PartsOk([], []) && Concat([]) == "";
    }
  }

  lemma LanguageSplits(it: Item, items: seq<Item>, word: string) returns (j: nat)
    requires InLanguage([it] + items, word)
    ensures j <= |word| && PartOk(it, word[..j]) && InLanguage(items, word[j..])
  {
    var parts :| PartsOk([it] + items, parts) && Concat(parts) == word;
    j := |parts[0]|;
    assert word[..j] == parts[0] && word[j..] == Concat(parts[1..]);
    assert ([it] + items)[0] == it;
    assert PartsOk(items, parts[1..]) by {
      forall i | 0 <= i < |items|
        ensures PartOk(items[i], parts[1..][i])
      {
        assert ([it] + items)[i + 1] == items[i] && parts[1..][i] == parts[i + 1];
      }
    }
  }

  lemma LanguageJoins(it: Item, items: seq<Item>, part: string, rest: string)
    requires PartOk(it, part) && InLanguage(items, rest)
    ensures InLanguage([it] + items, part + rest)
  {
    var parts :| PartsOk(items, parts) && Concat(parts) == rest;
    var all := [part] + parts;
    assert all[1..] == parts;
    assert PartsOk([it] + items, all);
  }

  /** A pattern matches in front exactly when its first item takes some characters there and
      the rest matches after them. */
  lemma FrontCons(it: Item, p: Pattern, text: string)
    ensures MatchesFront(Cons(it, p), text) <==> exists j :: CutOk(it, p, text, j)
  {
    if MatchesFront(Cons(it, p), text) {
      var k :| FrontOk(Cons(it, p), text, k);
      var j := LanguageSplits(it, p.items, text[..k]);
      assert text[..k][..j] == text[..j] && text[..k][j..] == text[j..][..k - j];
      assert FrontOk(p, text[j..], k - j);
      assert CutOk(it, p, text, j);
    }
    if j :| CutOk(it, p, text, j) {
      var k :| FrontOk(p, text[j..], k);
      LanguageJoins(it, p.items, text[..j], text[j..][..k]);
      assert text[..j] + text[j..][..k] == text[..j + k];
      assert FrontOk(Cons(it, p), text, j + k);
    }
  }

  lemma FrontEmpty(toEnd: bool, text: string)
    ensures MatchesFront(Pattern([], toEnd), text) <==> !toEnd || text == ""
  {
    EmptyLanguage(text[..0]);
    if !toEnd || text == "" {
      assert FrontOk(Pattern([], toEnd), text, 0);
    } else {
      EmptyLanguage(text[..|text|]);
    }
  }

  lemma FrontOne(c: char, p: Pattern, text: string)
    ensures MatchesFront(Cons(One(c), p), text) <==> text != "" && CharOk(c, text[0]) && MatchesFront(p, text[1..])
  {
    FrontCons(One(c), p, text);
    if text != "" && CharOk(c, text[0]) && MatchesFront(p, text[1..]) {
      assert CutOk(One(c), p, text, 1);
    }
  }

  // ---- the matcher ----

  /** matchhere: does the pattern match at the beginning of the text? */
  method MatchHere(re: string, text: string) returns (b: bool)
    ensures b <==> MatchesFront(Parse(re), text)
    decreases |re|, 0
  {
    FrontEmpty(false, text);
    FrontEmpty(true, text);
    if re == "" {
      return true;
    }
    if |re| >= 2 && re[1] == '*' {
      b := MatchStar(re[0], re[2..], text);
      return;
    }
    if re == "$" {
      return text == "";
    }
    FrontOne(re[0], Parse(re[1..]), text);
    if text != "" && (re[0] == '.' || re[0] == text[0]) {
      b := MatchHere(re[1..], text[1..]);
      return;
    }
    return false;
  }

  /** matchstar: does c*re match at the beginning of the text? */
  method MatchStar(c: char, re: string, text: string) returns (b: bool)
    ensures b <==> MatchesFront(Cons(Star(c), Parse(re)), text)
    decreases |re|, 1
  {
    FrontCons(Star(c), Parse(re), text);
    var i := 0;
    while true
      invariant 0 <= i <= |text|
      invariant forall k :: 0 <= k < i ==> CharOk(c, text[k])
      invariant forall j :: 0 <= j < i ==> !CutOk(Star(c), Parse(re), text, j)
      decreases |text| - i
    {
      b := MatchHere(re, text[i..]);
      if b {
        assert CutOk(Star(c), Parse(re), text, i);
        return;
      }
      if i == |text| || !(text[i] == c || c == '.') {
        forall j | i < j <= |text|
          ensures !PartOk(Star(c), text[..j])
        {
          assert text[..j][i] == text[i];
        }
        return false;
      }
      i := i + 1;
    }
  }

  /** Where a match may start: anywhere, or only at 0 under a leading '^'. */
  ghost predicate Matches(re: string, text: string) {
    if re != "" && re[0] == '^' then MatchesFront(Parse(re[1..]), text)
    else exists i :: 0 <= i <= |text| && MatchesFront(Parse(re), text[i..])
  }

  /** match: is there a match anywhere in the text? */
  method Match(re: string, text: string) returns (b: bool)
    ensures b <==> Matches(re, text)
  {
    if re != "" && re[0] == '^' {
      b := MatchHere(re[1..], text);
      return;
    }
    var i := 0;
    while true
      invariant 0 <= i <= |text|
      invariant forall j :: 0 <= j < i ==> !MatchesFront(Parse(re), text[j..])
      decreases |text| - i
    {
      b := MatchHere(re, text[i..]);
      if b {
        return;
      }
      if i == |text| {
        return false;
      }
      i := i + 1;
    }
  }
}
