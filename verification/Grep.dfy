/**
  The regular-expression matcher of user/grep.c. The meaning of a pattern is
  declarative: some piece of the text is in the language of the pattern. The
  methods are the matcher, which never builds that language.
 */
module Grep {
  import opened Params

  // A parsed pattern: items in order, and whether it ends in "$".
  datatype Item = One(c: char) | Many(c: char)
  datatype Pattern = Pattern(items: seq<Item>, toEnd: bool)

  // c* binds c whatever c is; "$" is an anchor only as the last character.
  function Parse(re: string): Pattern {
    if re == [] then Pattern([], false)
    else if |re| >= 2 && re[1] == '*' then
      var p := Parse(re[2..]);
      Pattern([Many(re[0])] + p.items, p.toEnd)
    else if re == "$" then Pattern([], true)
    else
      var p := Parse(re[1..]);
      Pattern([One(re[0])] + p.items, p.toEnd)
  }

  predicate Fits(c: char, x: char) { c == '.' || c == x }

  // The language of a sequence of items.
  ghost predicate In(items: seq<Item>, w: string) {
    if items == [] then w == []
    else match items[0]
      case One(c) => w != [] && Fits(c, w[0]) && In(items[1..], w[1..])
      case Many(c) => exists k :: 0 <= k <= |w| && AllFit(c, w[..k]) && In(items[1..], w[k..])
  }

  predicate AllFit(c: char, w: string) { forall i :: 0 <= i < |w| ==> Fits(c, w[i]) }

  // Some beginning of the text is in the language, the whole of it if anchored.
  ghost predicate Begins(p: Pattern, text: string) {
    exists j :: 0 <= j <= |text| && In(p.items, text[..j]) && (p.toEnd ==> j == |text|)
  }

  // Some piece text[i..j] is in the language; "^" and "$" pin its ends.
  ghost predicate Meaning(re: string, text: string) {
    if re != [] && re[0] == '^'
    then Begins(Parse(re[1..]), text)
    else exists i :: 0 <= i <= |text| && Begins(Parse(re), text[i..])
  }

  // Character i of a C string.
  function At(s: string, i: nat): char
    requires i <= |s|
  {
    if i < |s| then s[i] else '\0'
  }

  lemma BeginsMany(c: char, p: Pattern, text: string)
    ensures Begins(Pattern([Many(c)] + p.items, p.toEnd), text) <==>
            exists k :: 0 <= k <= |text| && AllFit(c, text[..k]) && Begins(p, text[k..])
  {
    var q := Pattern([Many(c)] + p.items, p.toEnd);
    assert q.items[1..] == p.items;
    if Begins(q, text) {
      var j :| 0 <= j <= |text| && In(q.items, text[..j]) && (q.toEnd ==> j == |text|);
      var w := text[..j];
      var k :| 0 <= k <= |w| && AllFit(c, w[..k]) && In(p.items, w[k..]);
      assert w[..k] == text[..k] && w[k..] == text[k..][..j - k];
      assert Begins(p, text[k..]);
    }
    if k :| 0 <= k <= |text| && AllFit(c, text[..k]) && Begins(p, text[k..]) {
      var j :| 0 <= j <= |text| - k && In(p.items, text[k..][..j]) && (p.toEnd ==> j == |text| - k);
      var w := text[..k + j];
      assert w[..k] == text[..k] && w[k..] == text[k..][..j];
      assert In(q.items, w);
    }
  }

  lemma BeginsOne(c: char, p: Pattern, text: string)
    ensures Begins(Pattern([One(c)] + p.items, p.toEnd), text) <==>
              text != [] && Fits(c, text[0]) && Begins(p, text[1..])
  {
    var q := Pattern([One(c)] + p.items, p.toEnd);
    assert q.items[1..] == p.items;
    if Begins(q, text) {
      var j :| 0 <= j <= |text| && In(q.items, text[..j]) && (q.toEnd ==> j == |text|);
      assert text[..j][1..] == text[1..][..j - 1];
    }
    if text != [] && Fits(c, text[0]) && Begins(p, text[1..]) {
      var j :| 0 <= j <= |text| - 1 && In(p.items, text[1..][..j]) && (p.toEnd ==> j == |text| - 1);
      assert text[..j + 1][1..] == text[1..][..j];
      assert In(q.items, text[..j + 1]);
    }
  }

  lemma BeginsEmpty(text: string)
    ensures Begins(Pattern([], false), text)
    ensures Begins(Pattern([], true), text) <==> text == []
  {
    assert In([], text[..0]);
  }

  // matchhere, by the first item of the pattern.
  method MatchHere(re: string, text: string) returns (b: bool)
    requires NulFree(re) && NulFree(text)
    ensures b <==> Begins(Parse(re), text)
    decreases |re|, 0
  {
    if At(re, 0) == '\0' {
      BeginsEmpty(text);
      return true;
    }
    if At(re, 1) == '*' {
      BeginsMany(re[0], Parse(re[2..]), text);
      b := MatchStar(re[0], re[2..], text);
      return;
    }
    if re[0] == '$' && At(re, 1) == '\0' {
      BeginsEmpty(text);
      return At(text, 0) == '\0';
    }
    BeginsOne(re[0], Parse(re[1..]), text);
    if At(text, 0) != '\0' && (re[0] == '.' || re[0] == text[0]) {
      b := MatchHere(re[1..], text[1..]);
      return;
    }
    return false;
  }

  // matchstar, one more character of the run a turn.
  method MatchStar(c: char, re: string, text: string) returns (b: bool)
    requires NulFree(re) && NulFree(text)
    ensures b <==> exists k :: 0 <= k <= |text| && AllFit(c, text[..k]) && Begins(Parse(re), text[k..])
    decreases |re|, 1
  {
    var i := 0;
    while true
      invariant 0 <= i <= |text| && AllFit(c, text[..i])
      invariant forall k :: 0 <= k < i ==> !Begins(Parse(re), text[k..])
      decreases |text| - i
    {
      b := MatchHere(re, text[i..]);
      if b { return; }
      if At(text, i) == '\0' || !(text[i] == c || c == '.') {
        forall k | 0 <= k <= |text| && AllFit(c, text[..k]) ensures k <= i {
        }
        return;
      }
      i := i + 1;
    }
  }

  /**
    match: true exactly when the text satisfies the meaning of the pattern.
   */
  method Match(re: string, text: string) returns (b: bool)
    requires NulFree(re) && NulFree(text)
    ensures b <==> Meaning(re, text)
  {
    if At(re, 0) == '^' {
      b := MatchHere(re[1..], text);
      return;
    }
    var i := 0;
    while true
      invariant 0 <= i <= |text|
      invariant forall k :: 0 <= k < i ==> !Begins(Parse(re), text[k..])
      decreases |text| - i
    {
      b := MatchHere(re, text[i..]);
      if b { return; }
      if At(text, i) == '\0' { return; }
      i := i + 1;
    }
  }
}
