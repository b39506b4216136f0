/**
 The pattern matcher of grep.c against the meaning of the pattern. A C string is the sequence of
 its characters before the terminator, so *text == 0 is text == [].
 */
module Grep {

  // ---- What a pattern means ----------------------------------------------------------------

  // '.' in place of c stands for any character.
  datatype Item = One(c: char) | Star(c: char)

  // toEnd: a final $ ties the match to the end of the text.
  datatype Pattern = Pattern(items: seq<Item>, toEnd: bool)

  predicate Accepts(c: char, x: char) {
    c == '.' || c == x
  }

  // w is a sequence of characters each accepted by c.
  predicate InStar(c: char, w: string) {
    w == [] || (InStar(c, w[..|w| - 1]) && Accepts(c, w[|w| - 1]))
  }

  predicate InItem(item: Item, w: string) {
    match item
    case One(c) => |w| == 1 && Accepts(c, w[0])
    case Star(c) => InStar(c, w)
  }

  // The concatenation of the items' languages.
  predicate InItems(items: seq<Item>, w: string) {
    if items == [] then w == []
    else exists k | 0 <= k <= |w| :: Splits(items, w, k)
  }

  predicate Splits(items: seq<Item>, w: string, k: nat)
    requires items != [] && k <= |w|
    decreases items, w, 0
  {
    InItem(items[0], w[..k]) && InItems(items[1..], w[k..])
  }

  // The first k characters of text are what the pattern describes.
  predicate MatchesTo(p: Pattern, text: string, k: nat)
    requires k <= |text|
  {
    InItems(p.items, text[..k]) && (p.toEnd ==> k == |text|)
  }

  predicate MatchesAt(p: Pattern, text: string) {
    exists k | 0 <= k <= |text| :: MatchesTo(p, text, k)
  }

  // c* is tried first, so $ and ^ before a * and anywhere but at the very end are literal.
  function Parse(re: string): Pattern {
    if re == [] then Pattern([], false)
    else if |re| > 1 && re[1] == '*' then
      var p := Parse(re[2..]);
      p.(items := [Star(re[0])] + p.items)
    else if re == "$" then Pattern([], true)
    else
      var p := Parse(re[1..]);
      p.(items := [One(re[0])] + p.items)
  }

  predicate MatchesSuffix(p: Pattern, text: string, j: nat)
    requires j <= |text|
  {
    MatchesAt(p, text[j..])
  }

  // A leading ^ ties the match to the start of the text; otherwise any suffix will do.
  predicate Matches(re: string, text: string) {
    if re != [] && re[0] == '^' then MatchesAt(Parse(re[1..]), text)
    else exists j | 0 <= j <= |text| :: MatchesSuffix(Parse(re), text, j)
  }

  // ---- How the meaning unfolds along a text -----------------------------------------------

  lemma {:induction false} StarIsPrefixClosed(c: char, w: string, k: nat)
    requires InStar(c, w) && k <= |w|
    ensures InStar(c, w[..k])
  {
    if k < |w| {
      StarIsPrefixClosed(c, w[..|w| - 1], k);
      assert w[..|w| - 1][..k] == w[..k];
    } else {
      assert w[..k] == w;
    }
  }

  lemma EmptyPattern(p: Pattern, text: string)
    requires p.items == []
    ensures MatchesAt(p, text) <==> (p.toEnd ==> text == [])
  {
    assert MatchesTo(p, text, 0) <==> (p.toEnd ==> text == []);
    forall k | 0 <= k <= |text| && MatchesTo(p, text, k)
      ensures k == 0
    {
    }
  }

  lemma ConsumesOne(c: char, p: Pattern, text: string)
    ensures var q := p.(items := [One(c)] + p.items);
      MatchesAt(q, text) <==> text != [] && Accepts(c, text[0]) && MatchesAt(p, text[1..])
  {
    var q := p.(items := [One(c)] + p.items);
    assert q.items[1..] == p.items;
    if k :| 0 <= k <= |text| && MatchesTo(q, text, k) {
      var w := text[..k];
      assert InItems(q.items, w);
      var i :| 0 <= i <= |w| && Splits(q.items, w, i);
      assert i == 1 && w[1..] == text[1..][..k - 1];
      assert MatchesTo(p, text[1..], k - 1);
    }
    if text != [] && Accepts(c, text[0]) && MatchesAt(p, text[1..]) {
      var k :| 0 <= k <= |text[1..]| && MatchesTo(p, text[1..], k);
      var w := text[..k + 1];
      assert w[1..] == text[1..][..k];
      assert Splits(q.items, w, 1);
      assert MatchesTo(q, text, k + 1);
    }
  }

  // The star takes j characters and the rest of the pattern starts there.
  predicate StarTakes(c: char, p: Pattern, text: string, j: nat)
    requires j <= |text|
  {
    InStar(c, text[..j]) && MatchesAt(p, text[j..])
  }

  lemma ConsumesStar(c: char, p: Pattern, text: string)
    ensures var q := p.(items := [Star(c)] + p.items);
      MatchesAt(q, text) <==> exists j | 0 <= j <= |text| :: StarTakes(c, p, text, j)
  {
    var q := p.(items := [Star(c)] + p.items);
    assert q.items[1..] == p.items;
    if k :| 0 <= k <= |text| && MatchesTo(q, text, k) {
      var w := text[..k];
      assert InItems(q.items, w);
      var i :| 0 <= i <= |w| && Splits(q.items, w, i);
      assert w[..i] == text[..i] && w[i..] == text[i..][..k - i];
      assert MatchesTo(p, text[i..], k - i);
      assert StarTakes(c, p, text, i);
    }
    if j :| 0 <= j <= |text| && StarTakes(c, p, text, j) {
      var k :| 0 <= k <= |text[j..]| && MatchesTo(p, text[j..], k);
      var w := text[..j + k];
      assert w[..j] == text[..j] && w[j..] == text[j..][..k];
      assert Splits(q.items, w, j);
      assert MatchesTo(q, text, j + k);
    }
  }

  // ---- The matcher -----------------------------------------------------------------------------

  // Finds the pattern anywhere in text, exactly when it is there.
  method Match(re: string, text: string) returns (r: bool)
    ensures r <==> Matches(re, text)
  {
    if re != [] && re[0] == '^' {
      r := MatchHere(re[1..], text);
      return;
    }
    var t := text;
    ghost var j := 0;
    while true
      invariant 0 <= j <= |text| && t == text[j..]
      invariant forall i | 0 <= i < j :: !MatchesSuffix(Parse(re), text, i)
      decreases |t|
    {
      r := MatchHere(re, t);
      if r {
        assert MatchesSuffix(Parse(re), text, j);
        return;
      }
      if t == [] {
        break;
      }
      t := t[1..];
      j := j + 1;
    }
    r := false;
  }

  // Finds the pattern at the beginning of text.
  method MatchHere(re: string, text: string) returns (r: bool)
    ensures r <==> MatchesAt(Parse(re), text)
    decreases |re|, 0
  {
    if re == [] {
      EmptyPattern(Parse(re), text);
      return true;
    }
    if |re| > 1 && re[1] == '*' {
      ConsumesStar(re[0], Parse(re[2..]), text);
      assert Parse(re) == Parse(re[2..]).(items := [Star(re[0])] + Parse(re[2..]).items);
      r := MatchStar(re[0], re[2..], text);
      return;
    }
    if re[0] == '$' && |re| == 1 {
      EmptyPattern(Parse(re), text);
      return text == [];
    }
    ConsumesOne(re[0], Parse(re[1..]), text);
    if text != [] && (re[0] == '.' || re[0] == text[0]) {
      r := MatchHere(re[1..], text[1..]);
      return;
    }
    r := false;
  }

  // Finds c* followed by the pattern at the beginning of text, shortest first.
  method MatchStar(c: char, re: string, text: string) returns (r: bool)
    ensures r <==> exists j | 0 <= j <= |text| :: StarTakes(c, Parse(re), text, j)
    decreases |re|, 1
  {
    var t := text;
    ghost var j := 0;
    while true
      invariant 0 <= j <= |text| && t == text[j..] && InStar(c, text[..j])
      invariant forall i | 0 <= i < j :: !StarTakes(c, Parse(re), text, i)
      decreases |t|
    {
      r := MatchHere(re, t);
      if r {
        assert StarTakes(c, Parse(re), text, j);
        return;
      }
      if t == [] {
        break;
      }
      var x := t[0];
      assert text[..j + 1][..j] == text[..j];
      t := t[1..];
      if !(x == c || c == '.') {
        StarStops(c, text, j);
        break;
      }
      j := j + 1;
    }
    r := false;
  }

  lemma StarStops(c: char, text: string, j: nat)
    requires j < |text| && !Accepts(c, text[j])
    ensures forall i | j < i <= |text| :: !InStar(c, text[..i])
  {
    forall i | j < i <= |text|
      ensures !InStar(c, text[..i])
    {
      assert text[..i][..j + 1] == text[..j + 1];
      if InStar(c, text[..i]) {
        StarIsPrefixClosed(c, text[..i], j + 1);
      }
    }
  }
}
