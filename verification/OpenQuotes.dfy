/** Adding a term to a filter text whose last quote is still open
    (web/index.html): when that works all the same. */
module OpenQuotes {
  import opened Strings
  import opened FilterTerms

  /** The text from its open token on. */
  function OpenAt(s: string): (b: string)
    requires !Terminated(s)
    ensures b != "" && !IsSpace(b[0]) && !First(b).closed
    decreases |s|
  {
    if IsSpace(s[0]) then OpenAt(s[1..]) else if First(s).closed then OpenAt(First(s).rest) else s
  }

  /** The terms before it. */
  function TermsBefore(s: string): seq<Term>
    requires !Terminated(s)
    decreases |s|
  {
    if IsSpace(s[0]) then TermsBefore(s[1..])
    else if First(s).closed then Kept(First(s)) + TermsBefore(First(s).rest)
    else []
  }

  lemma {:induction false} RunInside(a: string, z: string)
    requires WordLength(a) < |a|
    ensures WordLength(a + z) == WordLength(a)
  {
    assert (a + z)[1..] == a[1..] + z;
    if !IsSpace(a[0]) {
      RunInside(a[1..], z);
    }
  }

  /** A closed token with more after it is not changed by what comes later. */
  lemma BodyContinues(a: string, z: string)
    requires Body(a).closed && Body(a).rest != ""
    ensures Body(a + z) == Body(a).(rest := Body(a).rest + z)
  {
    if IsQuote(a[0]) {
      QuoteStops(a, z);
    } else {
      RunInside(a, z);
      var n := WordLength(a);
      assert (a + z)[..n] == a[..n] && (a + z)[n..] == a[n..] + z;
    }
  }

  lemma FirstContinues(a: string, z: string)
    requires a != "" && !IsSpace(a[0]) && First(a).closed && First(a).rest != ""
    ensures First(a + z) == First(a).(rest := First(a).rest + z)
  {
    if a[0] == '-' {
      assert (a + z)[1..] == a[1..] + z;
      BodyContinues(a[1..], z);
    } else {
      BodyContinues(a, z);
    }
  }

  /** Whatever is typed next goes to the open token. */
  lemma {:induction false} OpenSplits(s: string, z: string)
    requires !Terminated(s)
    ensures Terms(s + z) == TermsBefore(s) + Terms(OpenAt(s) + z)
    decreases |s|
  {
    if IsSpace(s[0]) {
      assert (s + z)[1..] == s[1..] + z;
      OpenSplits(s[1..], z);
    } else if First(s).closed {
      FirstContinues(s, z);
      OpenSplits(First(s).rest, z);
      TermsUnfold(s + z);
      Associate(Kept(First(s)), TermsBefore(First(s).rest), Terms(OpenAt(s) + z));
    } else {
      assert [] + Terms(s + z) == Terms(s + z);
    }
  }

  /** An open token is a sign, a quote, and a text without that quote. */
  lemma OpenToken(b: string) returns (neg: bool, quote: char, x: string)
    requires b != "" && !IsSpace(b[0]) && !First(b).closed
    ensures IsQuote(quote) && quote !in x && b == Signed(neg, [quote] + x)
  {
    neg := b[0] == '-';
    var body := if neg then b[1..] else b;
    quote, x := body[0], body[1..];
    assert body == [quote] + x;
  }

  lemma OpenSwallows(neg: bool, quote: char, y: string)
    requires IsQuote(quote) && quote !in y
    ensures Terms(Signed(neg, [quote] + y)) == Kept(Token(neg, y, "", false))
  {
    var body := [quote] + y;
    assert body[1..] == y;
    SignedToken(neg, body);
    TermsUnfold(Signed(neg, body));
    assert Terms("") == [];
  }

  lemma OpenCloses(neg: bool, quote: char, u: string, v: string)
    requires IsQuote(quote) && quote !in u
    ensures Terms(Signed(neg, [quote] + u + [quote] + v)) == Kept(Token(neg, u, v, true)) + Terms(v)
  {
    var body := [quote] + u + [quote] + v;
    assert body[1..] == u + [quote] + v;
    FirstIndex(body[1..], |u|, quote);
    assert body[1..][..|u|] == u && body[1..][|u| + 1..] == v;
    SignedToken(neg, body);
    TermsUnfold(Signed(neg, body));
  }

  /** A blank term, or a blank and a dash, as the sign of the token has it. */
  function Odd(neg: bool): Term {
    Term(neg, if neg then " -" else " ")
  }

  /** The text is open at a double quote with nothing after it. */
  predicate AtLoneQuote(s: string, neg: bool)
    requires !Terminated(s)
  {
    OpenAt(s) == Signed(neg, "\"")
  }

  /** With an open quote a new term reads back only in one odd case: the text
      ends in the quote, and the term is the blank that closing it makes. */
  lemma AddToOpenExactly(value: string, t: string)
    requires !Terminated(Trim(value)) && TermOf(t) !in Terms(Trim(value))
    ensures Terms(Added(value, t)) == Terms(Trim(value)) + [TermOf(t)] <==>
      AtLoneQuote(Trim(value), TermOf(t).neg) && TermOf(t) == Odd(TermOf(t).neg)
  {
    var cur, q, term := Trim(value), Quoted(t), TermOf(t);
    var neg, quote, x := OpenToken(OpenAt(cur));
    OpenParts(cur, q, neg, quote, x);
    SameEnd(TermsBefore(cur), Terms(Signed(neg, [quote] + (x + " " + q))), Kept(Token(neg, x, "", false)), [term]);
    TailExactly(t, neg, quote, x);
    LoneQuoteExactly(cur, neg, quote, x, term.neg);
  }

  lemma OpenParts(cur: string, q: string, neg: bool, quote: char, x: string)
    requires !Terminated(cur) && IsQuote(quote) && quote !in x && OpenAt(cur) == Signed(neg, [quote] + x)
    ensures Terms(cur) == TermsBefore(cur) + Kept(Token(neg, x, "", false))
    ensures Terms(cur + " " + q) == TermsBefore(cur) + Terms(Signed(neg, [quote] + (x + " " + q)))
  {
    OpenSplits(cur, "");
    assert cur + "" == cur && OpenAt(cur) + "" == OpenAt(cur);
    OpenSwallows(neg, quote, x);
    var z := " " + q;
    OpenSplits(cur, z);
    Regroup(cur, " ", q);
    Regroup(x, " ", q);
    SignedExtends(neg, quote, x, z);
  }

  lemma Regroup(a: string, b: string, c: string)
    ensures a + b + c == a + (b + c)
  {
  }

  lemma SignedExtends(neg: bool, quote: char, x: string, z: string)
    ensures Signed(neg, [quote] + x) + z == Signed(neg, [quote] + (x + z))
  {
  }

  lemma LoneQuoteExactly(cur: string, neg: bool, quote: char, x: string, neg': bool)
    requires !Terminated(cur) && IsQuote(quote) && OpenAt(cur) == Signed(neg, [quote] + x)
    ensures AtLoneQuote(cur, neg') <==> neg == neg' && quote == '"' && x == ""
  {
    if AtLoneQuote(cur, neg') {
      SameSign(neg, quote, x, neg');
    }
    assert ['"'] + "" == "\"";
  }

  lemma SameEnd(a: seq<Term>, b: seq<Term>, c: seq<Term>, d: seq<Term>)
    ensures a + b == a + c + d <==> b == c + d
  {
    assert b == (a + b)[|a|..] && c + d == (a + c + d)[|a|..];
    assert a + c + d == a + (c + d);
  }

  lemma SameSign(neg: bool, quote: char, x: string, neg': bool)
    requires Signed(neg, [quote] + x) == Signed(neg', "\"") && IsQuote(quote)
    ensures neg == neg' && quote == '"' && x == ""
  {
    var s := Signed(neg, [quote] + x);
    assert neg <==> s[0] == '-';
    assert [quote] + x == if neg then s[1..] else s;
    assert ([quote] + x)[0] == '"' && |[quote] + x| == 1;
  }

  /** What the open token and the added term are read as. */
  lemma TailExactly(t: string, neg: bool, quote: char, x: string)
    requires IsQuote(quote) && quote !in x
    ensures Terms(Signed(neg, [quote] + (x + " " + Quoted(t)))) == Kept(Token(neg, x, "", false)) + [TermOf(t)] <==>
      quote == '"' && x == "" && TermOf(t) == Odd(neg)
  {
    if quote in Quoted(t) {
      var j := IndexOf(Quoted(t), quote);
      TailCloses(Quoted(t), neg, quote, x, j);
      ClosedTail(t, neg, quote, x, j);
    } else {
      OpenSwallows(neg, quote, x + " " + Quoted(t));
      SwallowedTail(t, neg, quote, x);
    }
  }

  lemma TailCloses(q: string, neg: bool, quote: char, x: string, j: nat)
    requires IsQuote(quote) && quote !in x && quote in q && j == IndexOf(q, quote)
    ensures Terms(Signed(neg, [quote] + (x + " " + q))) == [Term(neg, x + " " + q[..j])] + Terms(q[j + 1..])
  {
    CutAt(q, quote, x);
    OpenCloses(neg, quote, x + " " + q[..j], q[j + 1..]);
  }

  lemma CutAt(q: string, quote: char, x: string)
    requires quote in q && quote !in x && IsQuote(quote)
    ensures var j := IndexOf(q, quote);
      && quote !in x + " " + q[..j]
      && [quote] + (x + " " + q) == [quote] + (x + " " + q[..j]) + [quote] + q[j + 1..]
  {
    var j := IndexOf(q, quote);
    assert q == q[..j] + [quote] + q[j + 1..];
  }

  /** The open quote takes the added text whole: never the term. */
  lemma SwallowedTail(t: string, neg: bool, quote: char, x: string)
    requires IsQuote(quote) && quote !in x && quote !in Quoted(t)
    ensures Kept(Token(neg, x + " " + Quoted(t), "", false)) != Kept(Token(neg, x, "", false)) + [TermOf(t)]
    ensures quote == '"' ==> TermOf(t) != Odd(neg)
  {
    var q := Quoted(t);
    QuotedIsLonger(t);
    if x == "" {
      assert [Term(neg, x + " " + q)][0].text != TermOf(t).text;
      assert Kept(Token(neg, x, "", false)) + [TermOf(t)] == [TermOf(t)];
    } else {
      assert |Kept(Token(neg, x, "", false)) + [TermOf(t)]| == 2;
    }
    if TermOf(t) == Odd(neg) {
      OddQuoted(t, neg);
    }
  }

  lemma QuotedIsLonger(t: string)
    ensures |TermOf(t).text| <= |Quoted(t)|
  {
  }

  lemma OddQuoted(t: string, neg: bool)
    requires TermOf(t) == Odd(neg)
    ensures Quoted(t) == Signed(neg, "\"" + Odd(neg).text + "\"") && '"' in Quoted(t)
    ensures IndexOf(Quoted(t), '"') == if neg then 1 else 0
  {
    assert IsSpace(Odd(neg).text[0]);
    FirstIndex(Quoted(t), if neg then 1 else 0, '"');
  }

  /** The open quote closes at the first one of its kind in the added text. */
  lemma ClosedTail(t: string, neg: bool, quote: char, x: string, j: nat)
    requires IsQuote(quote) && quote !in x && quote in Quoted(t) && j == IndexOf(Quoted(t), quote)
    ensures var u, v := x + " " + Quoted(t)[..j], Quoted(t)[j + 1..];
      [Term(neg, u)] + Terms(v) == Kept(Token(neg, x, "", false)) + [TermOf(t)] <==>
        quote == '"' && x == "" && TermOf(t) == Odd(neg)
  {
    var q, term := Quoted(t), TermOf(t);
    var u, v := x + " " + q[..j], q[j + 1..];
    if x != "" {
      Differ(Term(neg, u), Terms(v), Term(neg, x), [term]);
    } else {
      assert u == " " + q[..j];
      assert Kept(Token(neg, x, "", false)) + [term] == [term];
      if term == Odd(neg) {
        OddQuoted(t, neg);
        OddTail(t, neg, quote, j);
      } else if [Term(neg, u)] + Terms(v) == [term] {
        assert ([Term(neg, u)] + Terms(v))[0] == [term][0];
        BlankTerm(t, neg, quote, j);
      }
    }
  }

  lemma Differ(a: Term, b: seq<Term>, c: Term, d: seq<Term>)
    requires a != c
    ensures [a] + b != [c] + d
  {
    assert ([a] + b)[0] == a && ([c] + d)[0] == c;
  }

  lemma OddTail(t: string, neg: bool, quote: char, j: nat)
    requires IsQuote(quote) && TermOf(t) == Odd(neg) && quote in Quoted(t) && j == IndexOf(Quoted(t), quote)
    ensures quote == '"' && [Term(neg, " " + Quoted(t)[..j])] + Terms(Quoted(t)[j + 1..]) == [TermOf(t)]
  {
    var q := Quoted(t);
    OddQuoted(t, neg);
    OddRest(neg);
    OddParts(neg);
    assert [Odd(neg)] + [] == [Odd(neg)];
  }

  lemma OddParts(neg: bool)
    ensures var q, k := Signed(neg, "\"" + Odd(neg).text + "\""), if neg then 1 else 0;
      k < |q| && " " + q[..k] == Odd(neg).text && q[k + 1..] == Odd(neg).text + "\"" && '\'' !in q
  {
  }

  lemma OddRest(neg: bool)
    ensures Terms(Odd(neg).text + "\"") == []
  {
    var s := Odd(neg).text + "\"";
    assert s[1..] == Signed(neg, "\"" + "");
    OpenSwallows(neg, '"', "");
    assert "\"" + "" == ['"'] + "";
  }

  /** The only term that is a blank and the start of its own quoted form. */
  lemma BlankTerm(t: string, neg: bool, quote: char, j: nat)
    requires IsQuote(quote) && quote in Quoted(t) && j == IndexOf(Quoted(t), quote)
    requires TermOf(t) == Term(neg, " " + Quoted(t)[..j])
    ensures quote == '"' && TermOf(t) == Odd(neg)
  {
    var q, text := Quoted(t), TermOf(t).text;
    assert IsSpace(text[0]);
    var body := "\"" + text + "\"";
    assert q == Signed(neg, body);
    var k := if neg then 1 else 0;
    assert q[k] == '"' && q[k..] == body;
    if quote == '"' {
      FirstIndex(q, k, '"');
    }
  }

  // ---- what the box showed ----

  /** A text in quotes of its own is never read back from behind the first. */
  lemma RestOfQuoted(text: string)
    requires HasSpace(text)
    ensures Terms(text + "\"") != [Term(false, text)]
  {
    var s, term := text + "\"", Term(false, text);
    if Terms(s) == [term] {
      if IsSpace(s[0]) {
        TermsFit(s[1..], term);
      } else {
        TermsUnfold(s);
        if Kept(First(s)) == [] {
          assert Terms(First(s).rest) == Terms(s);
          assert term in [term];
          TermsFit(First(s).rest, term);
        } else {
          assert (Kept(First(s)) + Terms(First(s).rest))[0] == Kept(First(s))[0] == term;
          OwnFirst(text);
        }
      }
    }
  }

  lemma OwnFirst(text: string)
    requires HasSpace(text) && !IsSpace((text + "\"")[0])
    ensures First(text + "\"").neg || First(text + "\"").text != text
  {
    var s := text + "\"";
    if IsQuote(s[0]) && IndexOf(s[1..], s[0]) < 0 {
      assert text[0] == s[0];
    }
  }

  /** Blanks left at the end of an open text are part of its last term until
      trimmed; then nothing added reads back. */
  lemma TrailingNever(t: string, neg: bool, quote: char, x: string, trail: string)
    requires IsQuote(quote) && quote !in x && trail != "" && AllSpace(trail)
    ensures Terms(Signed(neg, [quote] + (x + " " + Quoted(t)))) != [Term(neg, x + trail), TermOf(t)]
  {
    var q, term := Quoted(t), TermOf(t);
    if quote !in q {
      OpenSwallows(neg, quote, x + " " + q);
    } else {
      var j := IndexOf(q, quote);
      TailCloses(q, neg, quote, x, j);
      if [Term(neg, x + " " + q[..j])] + Terms(q[j + 1..]) == [Term(neg, x + trail), term] {
        assert ([Term(neg, x + " " + q[..j])] + Terms(q[j + 1..]))[0].text == x + trail;
        assert ([Term(neg, x + " " + q[..j])] + Terms(q[j + 1..]))[1..] == [term];
        BlanksBefore(x, q[..j], trail);
        NothingBehind(t, quote, j);
      }
    }
  }

  lemma BlanksBefore(x: string, y: string, trail: string)
    requires x + " " + y == x + trail && AllSpace(trail)
    ensures AllSpace(y)
  {
    var whole := x + trail;
    assert forall i :: 0 <= i < |y| ==> y[i] == whole[|x| + 1 + i] == trail[1 + i];
  }

  /** Behind a quote that only blanks precede, the added text no longer holds
      the term. */
  lemma NothingBehind(t: string, quote: char, j: nat)
    requires IsQuote(quote) && quote in Quoted(t) && j == IndexOf(Quoted(t), quote) && AllSpace(Quoted(t)[..j])
    ensures Terms(Quoted(t)[j + 1..]) != [TermOf(t)]
  {
    if HasSpace(TermOf(t).text) {
      QuotedBehind(t, quote, j);
    } else {
      PlainBehind(t, quote, j);
    }
  }

  lemma QuotedBehind(t: string, quote: char, j: nat)
    requires HasSpace(TermOf(t).text) && IsQuote(quote)
    requires j < |Quoted(t)| && Quoted(t)[j] == quote && quote !in Quoted(t)[..j] && AllSpace(Quoted(t)[..j])
    ensures Terms(Quoted(t)[j + 1..]) != [TermOf(t)]
  {
    var q, text := Quoted(t), TermOf(t).text;
    if j > 0 {
      StartsBlank(q, j);
    } else {
      assert q == "\"" + text + "\"" && q[1..] == text + "\"";
      RestOfQuoted(text);
    }
  }

  lemma PlainBehind(t: string, quote: char, j: nat)
    requires !HasSpace(TermOf(t).text) && IsQuote(quote)
    requires j < |t| && t[j] == quote && AllSpace(t[..j])
    ensures Terms(t[j + 1..]) != [TermOf(t)]
  {
    var term := TermOf(t);
    if j == 0 && Terms(t[1..]) == [term] {
      TermsFit(t[1..], term);
    } else if j > 0 {
      StartsBlank(t, j);
    }
  }

  lemma StartsBlank(q: string, j: nat)
    requires 0 < j <= |q| && AllSpace(q[..j])
    ensures IsSpace(q[0])
  {
    assert q[0] == q[..j][0];
  }

  lemma ClosedStays(core: string, trail: string)
    requires Terminated(core) && AllSpace(trail)
    ensures Terminated(core + trail)
  {
    if trail == "" {
      assert core + trail == core;
    } else {
      TermsConcat(core, trail);
      SpaceHasNoTerms(trail);
    }
  }

  lemma {:induction false} TrimLeftEnds(s: string)
    requires TrimLeft(s) != ""
    ensures TrimLeft(s)[|TrimLeft(s)| - 1] == s[|s| - 1]
  {
    if IsSpace(s[0]) {
      TrimLeftEnds(s[1..]);
    }
  }

  lemma {:induction false} TrimRightEnds(s: string)
    requires s != ""
    ensures |TrimRight(s)| <= |s|
    ensures |TrimRight(s)| == |s| <==> !IsSpace(s[|s| - 1])
  {
    if IsSpace(s[|s| - 1]) && |s| > 1 {
      TrimRightEnds(s[..|s| - 1]);
    }
  }

  /** Trimming takes white space off an open text, at both ends, and leaves it
      open. */
  lemma OpenTrimmed(value: string) returns (trail: string)
    requires !Terminated(value)
    ensures AllSpace(trail) && !Terminated(Trim(value))
    ensures Terms(value) == Terms(Trim(value) + trail)
    ensures trail == "" <==> !IsSpace(value[|value| - 1])
  {
    TrimLeftKeeps(value);
    trail := RightTrimmed(TrimLeft(value));
    TrimLeftEnds(value);
  }

  lemma RightTrimmed(left: string) returns (trail: string)
    requires !Terminated(left)
    ensures AllSpace(trail) && !Terminated(TrimRight(left)) && left == TrimRight(left) + trail
    ensures trail == "" <==> !IsSpace(left[|left| - 1])
  {
    var core := TrimRight(left);
    TrimRightSplits(left);
    trail := left[|core|..];
    assert left == core + trail;
    if Terminated(core) {
      ClosedStays(core, trail);
    }
    TrimRightEnds(left);
  }

  /** The same by what the box showed before: that text, blanks at its end and
      all, must end in the lone quote. */
  lemma AddToOpenBoxExactly(value: string, t: string)
    requires !Terminated(value) && TermOf(t) !in Terms(Trim(value))
    ensures !Terminated(Trim(value))
    ensures Terms(Added(value, t)) == Terms(value) + [TermOf(t)] <==>
      AtLoneQuote(Trim(value), TermOf(t).neg) && TermOf(t) == Odd(TermOf(t).neg) && !IsSpace(value[|value| - 1])
  {
    var trail := OpenTrimmed(value);
    if trail == "" {
      assert Trim(value) + trail == Trim(value);
      AddToOpenExactly(value, t);
    } else {
      TrailingLost(Trim(value), t, trail);
    }
  }

  lemma TrailingLost(cur: string, t: string, trail: string)
    requires !Terminated(cur) && trail != "" && AllSpace(trail)
    ensures Terms(cur + " " + Quoted(t)) != Terms(cur + trail) + [TermOf(t)]
  {
    var neg, quote, x := OpenToken(OpenAt(cur));
    OpenParts(cur, Quoted(t), neg, quote, x);
    TrailTerm(cur, neg, quote, x, trail);
    var tail := Terms(Signed(neg, [quote] + (x + " " + Quoted(t))));
    SameEnd(TermsBefore(cur), tail, [Term(neg, x + trail)], [TermOf(t)]);
    assert [Term(neg, x + trail)] + [TermOf(t)] == [Term(neg, x + trail), TermOf(t)];
    TrailingNever(t, neg, quote, x, trail);
  }

  lemma TrailTerm(cur: string, neg: bool, quote: char, x: string, trail: string)
    requires !Terminated(cur) && IsQuote(quote) && quote !in x && OpenAt(cur) == Signed(neg, [quote] + x)
    requires trail != "" && AllSpace(trail)
    ensures Terms(cur + trail) == TermsBefore(cur) + [Term(neg, x + trail)]
  {
    OpenSplits(cur, trail);
    SignedExtends(neg, quote, x, trail);
    NoQuoteAdded(quote, x, trail);
    TakesAll(neg, quote, x + trail);
  }

  lemma TakesAll(neg: bool, quote: char, y: string)
    requires IsQuote(quote) && quote !in y && y != ""
    ensures Terms(Signed(neg, [quote] + y)) == [Term(neg, y)]
  {
    OpenSwallows(neg, quote, y);
  }

  lemma NoQuoteAdded(quote: char, x: string, trail: string)
    requires IsQuote(quote) && quote !in x && AllSpace(trail)
    ensures quote !in x + trail
  {
  }
}
