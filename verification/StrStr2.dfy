/**
 Searching for a pattern with wildcards: %? stands for one character and %* for any number of them.
 The loop steps through the text, and gives up as soon as what follows a %* cannot be found.
 */
module StrStr2 {

  const NULL := -1

  datatype Token = Literal(c: char) | One | Many

  // The pattern as the loop reads it: a percent sign before anything but ? and * is a literal.
  function Tokens(p: string): seq<Token> {
    if p == "" then []
    else if |p| >= 2 && p[0] == '%' && p[1] == '?' then [One] + Tokens(p[2..])
    else if |p| >= 2 && p[0] == '%' && p[1] == '*' then [Many] + Tokens(p[2..])
    else [Literal(p[0])] + Tokens(p[1..])
  }

  // The pattern as its description has it, where %% is one percent sign.
  function Described(p: string): seq<Token> {
    if p == "" then []
    else if |p| >= 2 && p[0] == '%' && p[1] == '?' then [One] + Described(p[2..])
    else if |p| >= 2 && p[0] == '%' && p[1] == '*' then [Many] + Described(p[2..])
    else if |p| >= 2 && p[0] == '%' && p[1] == '%' then [Literal('%')] + Described(p[2..])
    else [Literal(p[0])] + Described(p[1..])
  }

  // The pattern matches some stretch of the text that starts at i.
  ghost predicate Matches(p: seq<Token>, s: string, i: nat) {
    if p == [] then true
    else match p[0]
      case Literal(c) => i < |s| && s[i] == c && Matches(p[1..], s, i + 1)
      case One => i < |s| && Matches(p[1..], s, i + 1)
      case Many => exists k :: i <= k <= |s| && Matches(p[1..], s, k)
  }

  // The same, except that something must be left of the text where a %* ends.
  ghost predicate MatchesStrictly(p: seq<Token>, s: string, i: nat) {
    if p == [] then true
    else match p[0]
      case Literal(c) => i < |s| && s[i] == c && MatchesStrictly(p[1..], s, i + 1)
      case One => i < |s| && MatchesStrictly(p[1..], s, i + 1)
      case Many => exists k :: i <= k < |s| && MatchesStrictly(p[1..], s, k)
  }

  // r is the first place from `from` on where p matches, or NULL when there is none.
  ghost predicate Leftmost(r: int, p: seq<Token>, s: string, from: nat) {
    if r == NULL then forall i :: from <= i < |s| ==> !Matches(p, s, i)
    else from <= r < |s| && Matches(p, s, r) && forall i :: from <= i < r ==> !Matches(p, s, i)
  }

  ghost predicate LeftmostStrictly(r: int, p: seq<Token>, s: string, from: nat) {
    if r == NULL then forall i :: from <= i < |s| ==> !MatchesStrictly(p, s, i)
    else from <= r < |s| && MatchesStrictly(p, s, r) && forall i :: from <= i < r ==> !MatchesStrictly(p, s, i)
  }

  method StrStr2(s: string, from: nat, sub: string) returns (r: int)
    requires from <= |s|
    ensures LeftmostStrictly(r, Tokens(sub), s, from)
    decreases |sub|
  {
    var pstr := from;
    while pstr < |s|
      invariant from <= pstr <= |s|
      invariant forall i :: from <= i < pstr ==> !MatchesStrictly(Tokens(sub), s, i)
    {
      var tmp, psub := pstr, 0;
      while tmp < |s| && psub < |sub|
        invariant pstr <= tmp <= |s| && psub <= |sub|
        invariant MatchesStrictly(Tokens(sub), s, pstr) <==> MatchesStrictly(Tokens(sub[psub..]), s, tmp)
        invariant forall i :: pstr <= i < |s| && MatchesStrictly(Tokens(sub), s, i) ==>
          MatchesStrictly(Tokens(sub[psub..]), s, i + (tmp - pstr))
        decreases |sub| - psub
      {
        NextToken(sub, psub);
        if sub[psub] == '%' && psub + 1 < |sub| {
          var b := sub[psub + 1];
          if b == '?' {
            psub := psub + 2;
            tmp := tmp + 1;
            continue;
          }
          if b == '*' {
            var found := StrStr2(s, tmp, sub[psub + 2..]);
            return if found != NULL then pstr else NULL;
          }
        }
        if s[tmp] != sub[psub] {
          break;
        }
        tmp := tmp + 1;
        psub := psub + 1;
      }
      if psub == |sub| {
        return pstr;
      }
      NextToken(sub, psub);
      pstr := pstr + 1;
    }
    r := NULL;
  }

  // The token at psub, and what follows it.
  lemma NextToken(sub: string, psub: nat)
    requires psub < |sub|
    ensures var t := Tokens(sub[psub..]);
      if psub + 1 < |sub| && sub[psub] == '%' && sub[psub + 1] == '?' then
        t != [] && t[0] == One && t[1..] == Tokens(sub[psub + 2..])
      else if psub + 1 < |sub| && sub[psub] == '%' && sub[psub + 1] == '*' then
        t != [] && t[0] == Many && t[1..] == Tokens(sub[psub + 2..])
      else
        t != [] && t[0] == Literal(sub[psub]) && t[1..] == Tokens(sub[psub + 1..])
  {
    var p := sub[psub..];
    if |p| >= 2 {
      assert p[2..] == sub[psub + 2..];
    }
    assert p[1..] == sub[psub + 1..];
  }

  // ----- What the search promises -----

  predicate EndsInMany(p: seq<Token>) {
    p != [] && p[|p| - 1] == Many
  }

  lemma {:induction false} NeedsText(p: seq<Token>, s: string, i: nat)
    requires p != [] && !EndsInMany(p) && Matches(p, s, i)
    ensures i < |s|
    decreases |p|
  {
    if p[0] == Many {
      var k :| i <= k <= |s| && Matches(p[1..], s, k);
      NeedsText(p[1..], s, k);
    }
  }

  // A pattern with something behind its last %* matches strictly just where it matches.
  lemma {:induction false} StrictIsPlain(p: seq<Token>, s: string, i: nat)
    requires !EndsInMany(p) && i <= |s|
    ensures MatchesStrictly(p, s, i) <==> Matches(p, s, i)
    decreases |p|
  {
    if p == [] {
    } else if p[0] == Many {
      forall k | i <= k <= |s|
        ensures MatchesStrictly(p[1..], s, k) <==> Matches(p[1..], s, k)
        ensures Matches(p[1..], s, k) ==> k < |s|
      {
        StrictIsPlain(p[1..], s, k);
        if Matches(p[1..], s, k) {
          NeedsText(p[1..], s, k);
        }
      }
    } else if i < |s| {
      StrictIsPlain(p[1..], s, i + 1);
    }
  }

  lemma OneMatches(s: string, k: nat)
    ensures Matches([One], s, k) <==> k < |s|
  {
    var p: seq<Token> := [One];
    assert p[0] == One && p[1..] == [];
    assert Matches(p[1..], s, k + 1);
  }

  // A final %* asks for at least one more character: it matches as if %? came after it.
  lemma {:induction false} TrailingMany(p: seq<Token>, s: string, i: nat)
    requires EndsInMany(p) && i <= |s|
    ensures MatchesStrictly(p, s, i) <==> Matches(p + [One], s, i)
    decreases |p|
  {
    assert (p + [One])[0] == p[0] && (p + [One])[1..] == p[1..] + [One];
    if |p| == 1 {
      assert p[1..] == [] && (p + [One])[1..] == [One];
      assert MatchesStrictly(p[1..], s, i);
      forall k | i <= k <= |s|
        ensures Matches([One], s, k) <==> k < |s|
      {
        OneMatches(s, k);
      }
      assert i < |s| ==> Matches((p + [One])[1..], s, i);
    } else if p[0] == Many {
      forall k | i <= k <= |s|
        ensures MatchesStrictly(p[1..], s, k) <==> Matches(p[1..] + [One], s, k)
        ensures Matches(p[1..] + [One], s, k) ==> k < |s|
      {
        TrailingMany(p[1..], s, k);
        if Matches(p[1..] + [One], s, k) {
          NeedsText(p[1..] + [One], s, k);
        }
      }
    } else if i < |s| {
      TrailingMany(p[1..], s, i + 1);
    }
  }

  // What the code searches for, in terms of plain matching.
  function Effective(p: seq<Token>): seq<Token> {
    if EndsInMany(p) then p + [One] else p
  }

  lemma StrictIsEffective(p: seq<Token>, s: string, i: nat)
    requires i <= |s|
    ensures MatchesStrictly(p, s, i) <==> Matches(Effective(p), s, i)
  {
    if EndsInMany(p) {
      TrailingMany(p, s, i);
    } else {
      StrictIsPlain(p, s, i);
    }
  }

  lemma LeftmostEffective(r: int, p: seq<Token>, s: string, from: nat)
    ensures LeftmostStrictly(r, p, s, from) <==> Leftmost(r, Effective(p), s, from)
  {
    forall i | from <= i < |s|
      ensures MatchesStrictly(p, s, i) <==> Matches(Effective(p), s, i)
    {
      StrictIsEffective(p, s, i);
    }
  }

  predicate HasDoublePercent(p: string) {
    exists i :: 0 <= i < |p| - 1 && p[i] == '%' && p[i + 1] == '%'
  }

  lemma TailHasNone(p: string, k: nat)
    requires !HasDoublePercent(p) && k <= |p|
    ensures !HasDoublePercent(p[k..])
  {
    var q := p[k..];
    forall i | 0 <= i < |q| - 1
      ensures !(q[i] == '%' && q[i + 1] == '%')
    {
      assert q[i] == p[k + i] && q[i + 1] == p[(k + i) + 1];
    }
  }

  // The characters a sequence of tokens was read from, when each was read as the code reads it.
  function Weight(p: seq<Token>): nat {
    if p == [] then 0 else (if p[0].Literal? then 1 else 2) + Weight(p[1..])
  }

  lemma {:induction false} TokensWeight(p: string)
    ensures Weight(Tokens(p)) == |p|
    decreases |p|
  {
    if p != "" {
      TokensWeight(p[1..]);
      if |p| >= 2 {
        TokensWeight(p[2..]);
      }
    }
  }

  lemma {:induction false} DescribedWeight(p: string)
    ensures Weight(Described(p)) <= |p|
    ensures HasDoublePercent(p) ==> Weight(Described(p)) < |p|
    decreases |p|
  {
    if p != "" {
      DescribedWeight(p[1..]);
      if |p| >= 2 {
        DescribedWeight(p[2..]);
      }
      if HasDoublePercent(p) && !(|p| >= 2 && p[0] == '%' && p[1] == '%') {
        var i :| 0 <= i < |p| - 1 && p[i] == '%' && p[i + 1] == '%';
        assert p[1..][i - 1] == '%' && p[1..][(i - 1) + 1] == '%';
        if i >= 2 {
          assert p[2..][i - 2] == '%' && p[2..][(i - 2) + 1] == '%';
        }
      }
    }
  }

  lemma {:induction false} ReadAlike(p: string)
    requires !HasDoublePercent(p)
    ensures Tokens(p) == Described(p)
    decreases |p|
  {
    if p != "" {
      assert |p| >= 2 ==> !(p[0] == '%' && p[0 + 1] == '%');
      TailHasNone(p, 1);
      ReadAlike(p[1..]);
      if |p| >= 2 {
        TailHasNone(p, 2);
        ReadAlike(p[2..]);
      }
    }
  }

  // The code reads a pattern as described exactly when it has no %%.
  lemma ReadAsDescribed(p: string)
    ensures Tokens(p) == Described(p) <==> !HasDoublePercent(p)
  {
    if HasDoublePercent(p) {
      TokensWeight(p);
      DescribedWeight(p);
    } else {
      ReadAlike(p);
    }
  }

  // ----- When the search is right -----

  // The tokens that stand for one character each.
  function Singles(p: seq<Token>): seq<Token> {
    if p == [] then [] else (if p[0] == Many then [] else [p[0]]) + Singles(p[1..])
  }

  predicate Takes(t: Token, c: char) {
    t == One || t == Literal(c)
  }

  // The shortest text for them, with z where any character will do.
  function Filled(q: seq<Token>, z: char): (s: string)
    ensures |s| == |q|
  {
    seq(|q|, i requires 0 <= i < |q| => if q[i].Literal? then q[i].c else z)
  }

  lemma {:induction false} ShortestMatches(p: seq<Token>, s: string, i: nat)
    requires i + |Singles(p)| <= |s|
    requires forall j :: 0 <= j < |Singles(p)| ==> Takes(Singles(p)[j], s[i + j])
    ensures Matches(p, s, i)
    decreases |p|
  {
    if p != [] {
      var q, rest := Singles(p), Singles(p[1..]);
      if p[0] == Many {
        assert q == rest;
        ShortestMatches(p[1..], s, i);
      } else {
        assert Takes(q[0], s[i + 0]);
        forall j | 0 <= j < |rest|
          ensures Takes(rest[j], s[i + 1 + j])
        {
          assert rest[j] == q[j + 1] && Takes(q[j + 1], s[i + (j + 1)]);
        }
        ShortestMatches(p[1..], s, i + 1);
      }
    }
  }

  // The characters of s from i on are, one by one, what q takes.
  predicate Fits(q: seq<Token>, s: string, i: nat) {
    q == [] || (i < |s| && Takes(q[0], s[i]) && Fits(q[1..], s, i + 1))
  }

  lemma {:induction false} FitsAt(q: seq<Token>, s: string, i: nat, j: nat)
    requires Fits(q, s, i) && j < |q|
    ensures i + j < |s| && Takes(q[j], s[i + j])
    decreases j
  {
    if j > 0 {
      FitsAt(q[1..], s, i + 1, j - 1);
    }
  }

  // A match needs a character for each of them, and has no choice when there are no more.
  lemma {:induction false} MatchNeeds(p: seq<Token>, s: string, i: nat)
    requires Matches(p, s, i) && i <= |s|
    ensures i + |Singles(p)| <= |s|
    ensures i + |Singles(p)| == |s| ==> Fits(Singles(p), s, i)
    decreases |p|
  {
    if p != [] {
      var q, rest := Singles(p), Singles(p[1..]);
      if p[0] == Many {
        assert q == rest;
        var k :| i <= k <= |s| && Matches(p[1..], s, k);
        MatchNeeds(p[1..], s, k);
      } else {
        assert q[1..] == rest;
        MatchNeeds(p[1..], s, i + 1);
      }
    }
  }

  lemma FilledMatches(d: seq<Token>, z: char)
    ensures Matches(d, Filled(Singles(d), z), 0)
  {
    hide Matches, Singles;
    var s := Filled(Singles(d), z);
    SinglesSingle(d);
    forall j | 0 <= j < |s|
      ensures Takes(Singles(d)[j], s[0 + j])
    {
      assert Singles(d)[j] in Singles(d);
    }
    ShortestMatches(d, s, 0);
  }

  // The shortest text of d holds no match of c when c needs more, or another character.
  lemma Missed(c: seq<Token>, d: seq<Token>, z: char)
    requires Singles(d) != [] && |Singles(c)| >= |Singles(d)|
    requires |Singles(c)| == |Singles(d)| ==>
      exists k :: 0 <= k < |Singles(c)| && !Takes(Singles(c)[k], Filled(Singles(d), z)[k])
    ensures Matches(d, Filled(Singles(d), z), 0)
    ensures forall i :: 0 <= i < |Singles(d)| ==> !Matches(c, Filled(Singles(d), z), i)
  {
    hide Matches, Singles, Filled, Takes;
    var s := Filled(Singles(d), z);
    FilledMatches(d, z);
    forall i | 0 <= i < |s|
      ensures !Matches(c, s, i)
    {
      if Matches(c, s, i) {
        MatchNeeds(c, s, i);
        var k :| |Singles(c)| == |s| ==> 0 <= k < |s| && !Takes(Singles(c)[k], s[k]);
        FitsAt(Singles(c), s, i, k);
      }
    }
  }

  lemma {:induction false} SinglesSingle(p: seq<Token>)
    ensures forall t :: t in Singles(p) ==> t != Many && t in p
    decreases |p|
  {
    if p != [] {
      SinglesSingle(p[1..]);
    }
  }

  // No terminator among the characters: what C takes for a text.
  predicate Plain(s: string) {
    '\0' !in s
  }

  predicate PlainTokens(p: seq<Token>) {
    forall t :: t in p && t.Literal? ==> t.c != '\0'
  }

  lemma FilledPlain(p: seq<Token>, z: char)
    requires PlainTokens(p) && z != '\0'
    ensures Plain(Filled(Singles(p), z))
  {
    SinglesSingle(p);
  }

  // Two patterns whose single tokens differ are told apart by a text that is not empty.
  lemma ToldApart(c: seq<Token>, d: seq<Token>) returns (s: string)
    requires Singles(c) != [] && Singles(d) != [] && Singles(c) != Singles(d)
    requires PlainTokens(c) && PlainTokens(d)
    ensures s != "" && Plain(s)
    ensures (Leftmost(0, c, s, 0) && Leftmost(NULL, d, s, 0)) || (Leftmost(0, d, s, 0) && Leftmost(NULL, c, s, 0))
  {
    var q, r := Singles(c), Singles(d);
    if |q| > |r| {
      s := Filled(r, 'a');
      FilledPlain(d, 'a');
      Missed(c, d, 'a');
    } else if |q| < |r| {
      s := Filled(q, 'a');
      FilledPlain(c, 'a');
      Missed(d, c, 'a');
    } else {
      var k :| 0 <= k < |q| && q[k] != r[k];
      SinglesSingle(c);
      SinglesSingle(d);
      assert q[k] in q && r[k] in r;
      if q[k].Literal? {
        var z := if q[k].c == 'a' then 'b' else 'a';
        s := Filled(r, z);
        FilledPlain(d, z);
        assert !Takes(q[k], s[k]);
        Missed(c, d, z);
      } else {
        var z := if r[k].c == 'a' then 'b' else 'a';
        s := Filled(q, z);
        FilledPlain(c, z);
        assert !Takes(r[k], s[k]);
        Missed(d, c, z);
      }
    }
  }

  // ----- Patterns whose single tokens the code reads differently -----

  function Count<T(==)>(s: seq<T>, x: T): nat {
    if s == [] then 0 else (if s[0] == x then 1 else 0) + Count(s[1..], x)
  }

  lemma {:induction false} CountLast<T>(s: seq<T>, last: T, x: T)
    ensures Count(s + [last], x) == Count(s, x) + if last == x then 1 else 0
    decreases |s|
  {
    if s == [] {
      assert s + [last] == [last];
    } else {
      assert (s + [last])[1..] == s[1..] + [last];
      CountLast(s[1..], last, x);
    }
  }

  lemma {:induction false} SinglesCounted(p: seq<Token>, t: Token)
    requires t != Many
    ensures Count(Singles(p), t) == Count(p, t)
    decreases |p|
  {
    if p != [] {
      SinglesCounted(p[1..], t);
      if p[0] == Many {
        assert Singles(p) == Singles(p[1..]);
      } else {
        assert Singles(p)[1..] == Singles(p[1..]);
      }
    }
  }

  lemma {:induction false} WeightCounted(p: seq<Token>)
    ensures |Singles(p)| + Count(p, Many) == |p|
    ensures Weight(p) == |p| + Count(p, One) + Count(p, Many)
    decreases |p|
  {
    if p != [] {
      WeightCounted(p[1..]);
    }
  }

  lemma CountTwo(p: string, x: char)
    requires |p| >= 2
    ensures Count(p, x) == (if p[0] == x then 1 else 0) + (if p[1] == x then 1 else 0) + Count(p[2..], x)
  {
    assert p[1..][1..] == p[2..];
  }

  // Every * of the pattern is a literal or in a %*, and every ? a literal or in a %?.
  lemma {:induction false} TokensCounted(p: string)
    ensures Count(p, '*') == Count(Tokens(p), Literal('*')) + Count(Tokens(p), Many)
    ensures Count(p, '?') == Count(Tokens(p), Literal('?')) + Count(Tokens(p), One)
    decreases |p|
  {
    if p != "" {
      TokensCounted(p[1..]);
      if |p| >= 2 {
        CountTwo(p, '*');
        CountTwo(p, '?');
        TokensCounted(p[2..]);
      }
    }
  }

  lemma {:induction false} DescribedCounted(p: string)
    ensures Count(p, '*') == Count(Described(p), Literal('*')) + Count(Described(p), Many)
    ensures Count(p, '?') == Count(Described(p), Literal('?')) + Count(Described(p), One)
    decreases |p|
  {
    if p != "" {
      DescribedCounted(p[1..]);
      if |p| >= 2 {
        CountTwo(p, '*');
        CountTwo(p, '?');
        DescribedCounted(p[2..]);
      }
    }
  }

  // A token occurs as often in two patterns with the same single tokens; a final %* counts as %*%?.
  lemma SameCount(c: seq<Token>, d: seq<Token>, t: Token)
    requires Singles(Effective(c)) == Singles(d) && t != Many
    ensures Count(d, t) == Count(c, t) + if EndsInMany(c) && t == One then 1 else 0
  {
    SinglesCounted(Effective(c), t);
    SinglesCounted(d, t);
    CountLast(c, One, t);
  }

  // A pattern with %% asks for other characters than described.
  lemma DoublePercentDiffers(p: string)
    requires HasDoublePercent(p)
    ensures Singles(Effective(Tokens(p))) != Singles(Described(p))
  {
    hide Tokens, Described, Singles, Weight;
    var c, d := Tokens(p), Described(p);
    if Singles(Effective(c)) == Singles(d) {
      TokensCounted(p);
      DescribedCounted(p);
      TokensWeight(p);
      DescribedWeight(p);
      WeightCounted(c);
      WeightCounted(d);
      SameCount(c, d, Literal('?'));
      SameCount(c, d, Literal('*'));
      SameCount(c, d, One);
    }
  }

  // ----- The exact condition -----

  predicate OnlyMany(p: seq<Token>) {
    forall i :: 0 <= i < |p| ==> p[i] == Many
  }

  // Whatever the search returns on s is the leftmost match of the pattern as described.
  ghost predicate RightOn(sub: string, s: string) {
    forall r :: LeftmostStrictly(r, Tokens(sub), s, 0) ==> Leftmost(r, Described(sub), s, 0)
  }

  lemma RightWhenOnlyMany(sub: string, s: string)
    requires OnlyMany(Tokens(sub)) && Tokens(sub) == Described(sub) && s != ""
    ensures RightOn(sub, s)
  {
    OnlyManyMatches(Tokens(sub), s, 0);
    StrictIsEffective(Tokens(sub), s, 0);
  }

  lemma {:induction false} OnlyManyMatches(p: seq<Token>, s: string, i: nat)
    requires OnlyMany(p) && i < |s|
    ensures Matches(p, s, i) && MatchesStrictly(p, s, i)
    decreases |p|
  {
    if p != [] {
      OnlyManyMatches(p[1..], s, i);
    }
  }

  lemma RightWithoutFinalMany(sub: string, s: string)
    requires !EndsInMany(Tokens(sub)) && Tokens(sub) == Described(sub)
    ensures RightOn(sub, s)
  {
    forall r | LeftmostStrictly(r, Tokens(sub), s, 0)
      ensures Leftmost(r, Described(sub), s, 0)
    {
      LeftmostEffective(r, Tokens(sub), s, 0);
    }
  }

  lemma FoundOnce(p: seq<Token>, s: string)
    ensures !(Leftmost(0, p, s, 0) && Leftmost(NULL, p, s, 0))
  {
    var start: nat := 0;
    if Leftmost(start, p, s, start) && Leftmost(NULL, p, s, start) {
      assert Matches(p, s, start);
    }
  }

  // Where the code asks for other characters than described, some text shows it.
  lemma WrongOnSome(sub: string) returns (s: string)
    requires Plain(sub)
    requires var c, d := Effective(Tokens(sub)), Described(sub);
      Singles(c) != [] && Singles(d) != [] && Singles(c) != Singles(d)
    ensures s != "" && Plain(s) && !RightOn(sub, s)
  {
    var c, d := Effective(Tokens(sub)), Described(sub);
    LiteralsPlain(sub);
    s := ToldApart(c, d);
    FoundOnce(c, s);
    FoundOnce(d, s);
    LeftmostEffective(0, Tokens(sub), s, 0);
    LeftmostEffective(NULL, Tokens(sub), s, 0);
  }

  lemma {:induction false} LiteralsPlain(p: string)
    requires Plain(p)
    ensures PlainTokens(Tokens(p)) && PlainTokens(Described(p))
    decreases |p|
  {
    if p != "" {
      LiteralsPlain(p[1..]);
      if |p| >= 2 {
        LiteralsPlain(p[2..]);
      }
    }
  }

  lemma {:induction false} NoSingles(p: seq<Token>)
    ensures Singles(p) == [] <==> OnlyMany(p)
    ensures Singles(p + [One]) == Singles(p) + [One]
    decreases |p|
  {
    if p == [] {
      assert p + [One] == [One] && [One][1..] == [];
      assert Singles([One]) == [One];
    } else {
      NoSingles(p[1..]);
      assert (p + [One])[1..] == p[1..] + [One];
      assert forall i :: 1 <= i < |p| ==> p[i] == p[1..][i - 1];
      if p[0] != Many {
        assert Singles(p) != [];
      }
    }
  }

  lemma {:induction false} DoublePercentHasSingles(p: string)
    requires HasDoublePercent(p)
    ensures Singles(Tokens(p)) != [] && Singles(Described(p)) != []
    decreases |p|
  {
    if p[0] == '%' && p[1] == '*' {
      var i :| 0 <= i < |p| - 1 && p[i] == '%' && p[i + 1] == '%';
      assert p[2..][i - 2] == '%' && p[2..][(i - 2) + 1] == '%';
      DoublePercentHasSingles(p[2..]);
      assert Tokens(p)[1..] == Tokens(p[2..]) && Described(p)[1..] == Described(p[2..]);
    } else {
      assert Tokens(p)[0] != Many && Described(p)[0] != Many;
    }
  }

  // The search is right on every text exactly for the patterns without %% that do not end in %*, or
  // that are made of %* alone.
  lemma ExactlyRight(sub: string)
    requires Plain(sub)
    ensures (forall s :: s != "" && Plain(s) ==> RightOn(sub, s)) <==>
            !HasDoublePercent(sub) && (!EndsInMany(Described(sub)) || OnlyMany(Described(sub)))
  {
    hide RightOn, Tokens, Described, Singles;
    var c, d := Tokens(sub), Described(sub);
    ReadAsDescribed(sub);
    NoSingles(c);
    NoSingles(d);
    if HasDoublePercent(sub) {
      DoublePercentDiffers(sub);
      DoublePercentHasSingles(sub);
      var s := WrongOnSome(sub);
    } else if EndsInMany(d) && !OnlyMany(d) {
      var s := WrongOnSome(sub);
    } else {
      forall s | s != "" && Plain(s)
        ensures RightOn(sub, s)
      {
        if EndsInMany(d) {
          RightWhenOnlyMany(sub, s);
        } else {
          RightWithoutFinalMany(sub, s);
        }
      }
    }
  }

  // The whole search: the leftmost match of the pattern as described, or NULL if there is none,
  // for the patterns that allow it.
  method Search(s: string, sub: string) returns (r: int)
    requires Plain(s) && Plain(sub)
    ensures Leftmost(r, Effective(Tokens(sub)), s, 0)
    ensures s != "" && !HasDoublePercent(sub) && (!EndsInMany(Described(sub)) || OnlyMany(Described(sub))) ==>
      Leftmost(r, Described(sub), s, 0)
  {
    hide Tokens, Described;
    r := StrStr2(s, 0, sub);
    LeftmostEffective(r, Tokens(sub), s, 0);
    ExactlyRight(sub);
  }

  // The two exceptions are real: on "a", a%* finds nothing; and %% does not find "%".
  lemma TrailingManyMisses(r: int)
    requires LeftmostStrictly(r, Tokens("a%*"), "a", 0)
    ensures r == NULL && Matches(Described("a%*"), "a", 0)
  {
    var p := "a%*";
    assert p[1..] == "%*" && "%*"[2..] == "";
    assert Tokens(p) == [Literal('a'), Many] == Described(p);
    var t := [Literal('a'), Many];
    assert t[1..] == [Many] && [Many][1..] == [];
    assert Matches([], "a", 1);
    assert Matches([Many], "a", 1);
  }

  lemma DoublePercentMisses(r: int)
    requires LeftmostStrictly(r, Tokens("%%"), "%", 0)
    ensures r == NULL && Matches(Described("%%"), "%", 0)
  {
    assert "%%"[1..] == "%" && "%"[1..] == "" && "%%"[2..] == "";
    assert Tokens("%%") == [Literal('%'), Literal('%')];
    assert [Literal('%'), Literal('%')][1..] == [Literal('%')];
    assert Described("%%") == [Literal('%')] && [Literal('%')][1..] == [];
    assert Matches([], "%", 1);
  }
}
