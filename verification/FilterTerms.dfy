/** The filter box (web/index.html): splitting its text into terms, and adding
    a term so that it reads back as itself. */
module FilterTerms {
  import opened Strings

  datatype Term = Term(neg: bool, text: string)

  /** White space as \s and trim() understand it. */
  predicate IsSpace(c: char) {
    || c == ' ' || '\t' <= c <= '\r'
    || c == '\U{00A0}' || c == '\U{1680}' || '\U{2000}' <= c <= '\U{200A}'
    || c == '\U{2028}' || c == '\U{2029}' || c == '\U{202F}' || c == '\U{205F}' || c == '\U{3000}' || c == '\U{FEFF}'
  }

  predicate IsQuote(c: char) {
    c == '"' || c == '\''
  }

  predicate HasSpace(s: string) {
    exists i :: 0 <= i < |s| && IsSpace(s[i])
  }

  predicate AllSpace(s: string) {
    forall i :: 0 <= i < |s| ==> IsSpace(s[i])
  }

  /** How many characters precede the first white space. */
  function WordLength(s: string): (n: nat)
    ensures n <= |s|
    ensures forall i :: 0 <= i < n ==> !IsSpace(s[i])
    ensures n < |s| ==> IsSpace(s[n])
  {
    if s == "" || IsSpace(s[0]) then 0 else 1 + WordLength(s[1..])
  }

  /** The first token of a text that starts with one: its sign, its text, what
      follows it, and whether its quote, if any, is closed. */
  datatype Token = Token(neg: bool, text: string, rest: string, closed: bool)

  function Body(s: string): (t: Token)
    ensures |t.text| + |t.rest| <= |s|
    ensures s != "" && !IsSpace(s[0]) ==> |t.rest| < |s|
  {
    if s != "" && IsQuote(s[0]) then
      var end := IndexOf(s[1..], s[0]);
      if end < 0 then Token(false, s[1..], "", false)
      else Token(false, s[1..][..end], s[1..][end + 1..], true)
    else Token(false, s[..WordLength(s)], s[WordLength(s)..], true)
  }

  function First(s: string): (t: Token)
    requires s != "" && !IsSpace(s[0])
    ensures |t.rest| < |s| && |t.text| + |t.rest| <= |s|
  {
    if s[0] == '-' then Body(s[1..]).(neg := true) else Body(s)
  }

  /** A token contributes a term unless it is empty. */
  function Kept(t: Token): seq<Term> {
    if t.text != "" then [Term(t.neg, t.text)] else []
  }

  function Terms(s: string): seq<Term>
    decreases |s|
  {
    if s == "" then []
    else if IsSpace(s[0]) then Terms(s[1..])
    else Kept(First(s)) + Terms(First(s).rest)
  }

  /** No quote is left open. */
  predicate Terminated(s: string)
    decreases |s|
  {
    if s == "" then true
    else if IsSpace(s[0]) then Terminated(s[1..])
    else First(s).closed && Terminated(First(s).rest)
  }

  /** The parser as written, advancing an index; it terminates on any text. */
  method ParseTerms(s: string) returns (out: seq<Term>)
    ensures out == Terms(s)
  {
    out := [];
    var i := 0;
    while i < |s|
      invariant 0 <= i <= |s|
      invariant out + Terms(s[i..]) == Terms(s)
      decreases |s| - i
    {
      if IsSpace(s[i]) {
        TermsAt(s, i);
        i := i + 1;
        continue;
      }
      var neg, text, next := ParseToken(s, i);
      ghost var rest := Terms(s[next..]);
      if text != "" {
        assert out + ([Term(neg, text)] + rest) == out + [Term(neg, text)] + rest;
        out := out + [Term(neg, text)];
      } else {
        assert [] + rest == rest;
      }
      i := next;
    }
  }

  lemma TermsAt(s: string, i: nat)
    requires i < |s|
    ensures Terms(s[i..]) ==
      if IsSpace(s[i]) then Terms(s[i + 1..]) else Kept(First(s[i..])) + Terms(First(s[i..]).rest)
  {
    assert s[i..][1..] == s[i + 1..];
  }

  /** One token, from an index on. */
  method ParseToken(s: string, at: nat) returns (neg: bool, text: string, i: nat)
    requires at < |s| && !IsSpace(s[at])
    ensures at < i <= |s|
    ensures Terms(s[at..]) == (if text != "" then [Term(neg, text)] else []) + Terms(s[i..])
  {
    TermsAt(s, at);
    i := at;
    neg := false;
    if s[i] == '-' {
      neg := true;
      i := i + 1;
      assert s[at..][1..] == s[i..];
    }
    if i < |s| && (s[i] == '"' || s[i] == '\'') {
      text, i := ParseQuoted(s, i);
    } else {
      text, i := ParseRun(s, i);
    }
  }

  method ParseQuoted(s: string, from: nat) returns (text: string, i: nat)
    requires from < |s| && IsQuote(s[from])
    ensures from < i <= |s|
    ensures text == Body(s[from..]).text && s[i..] == Body(s[from..]).rest
  {
    var q := s[from];
    var rest := s[from + 1..];
    assert s[from..][1..] == rest;
    var end := IndexOf(rest, q);
    if end < 0 {
      text, i := rest, |s|;
    } else {
      text, i := rest[..end], from + 1 + end + 1;
      assert rest[end + 1..] == s[i..];
    }
  }

  method ParseRun(s: string, from: nat) returns (text: string, j: nat)
    requires from <= |s| && (from < |s| ==> !IsQuote(s[from]))
    ensures from <= j <= |s| && (from < |s| && !IsSpace(s[from]) ==> from < j)
    ensures text == Body(s[from..]).text && s[j..] == Body(s[from..]).rest
  {
    j := from;
    while j < |s| && !IsSpace(s[j])
      invariant from <= j <= |s|
      invariant WordLength(s[from..]) == j - from + WordLength(s[j..])
    {
      RunStep(s, j);
      j := j + 1;
    }
    text := s[from..j];
    assert s[from..][..j - from] == text && s[from..][j - from..] == s[j..];
  }

  lemma RunStep(s: string, j: nat)
    requires j < |s| && !IsSpace(s[j])
    ensures WordLength(s[j..]) == 1 + WordLength(s[j + 1..])
  {
    assert s[j..][1..] == s[j + 1..];
  }

  function TrimLeft(s: string): string {
    if s != "" && IsSpace(s[0]) then TrimLeft(s[1..]) else s
  }

  function TrimRight(s: string): string {
    if s != "" && IsSpace(s[|s| - 1]) then TrimRight(s[..|s| - 1]) else s
  }

  function Trim(s: string): string {
    TrimRight(TrimLeft(s))
  }

  /** A term as typed: its sign, and its text. */
  function TermOf(t: string): Term {
    if t != "" && t[0] == '-' then Term(true, t[1..]) else Term(false, t)
  }

  function Signed(neg: bool, body: string): string {
    if neg then "-" + body else body
  }

  function Quoted(t: string): string {
    var term := TermOf(t);
    if HasSpace(term.text) then Signed(term.neg, "\"" + term.text + "\"") else t
  }

  function Added(value: string, t: string): string {
    var cur := Trim(value);
    if TermOf(t) in Terms(cur) then value
    else (if cur != "" then cur + " " else "") + Quoted(t)
  }

  class FilterBox {
    var value: string

    constructor ()
      ensures value == ""
    {
      value := "";
    }

    method AddFilterTerm(t: string)
      modifies this
      ensures value == Added(old(value), t)
    {
      var cur := Trim(value);
      var neg := t != "" && t[0] == '-';
      var text := if neg then t[1..] else t;
      var terms := ParseTerms(cur);
      if Term(neg, text) in terms {
        return;
      }
      var q := if HasSpace(text) then (if neg then "-\"" else "\"") + text + "\"" else t;
      assert "-\"" + text + "\"" == "-" + ("\"" + text + "\"");
      value := (if cur != "" then cur + " " else "") + q;
    }
  }

  // ---- one token at a time ----

  /** White space comes next. */
  predicate Breaks(b: string) {
    b != "" && IsSpace(b[0])
  }

  lemma QuoteStops(a: string, b: string)
    requires a != "" && IsQuote(a[0]) && Body(a).closed
    ensures Body(a + b) == Body(a).(rest := Body(a).rest + b)
  {
    var end := IndexOf(a[1..], a[0]);
    var tail := (a + b)[1..];
    assert tail == a[1..] + b;
    assert tail[..end] == a[1..][..end];
    FirstIndex(tail, end, a[0]);
    assert tail[end + 1..] == a[1..][end + 1..] + b;
  }

  lemma WordStops(a: string, b: string)
    requires Breaks(b) && (a == "" || !IsQuote(a[0]))
    ensures Body(a + b) == Body(a).(rest := Body(a).rest + b)
  {
    RunStops(a, b);
    var n := WordLength(a);
    assert !IsQuote((a + b)[0]);
    assert (a + b)[..n] == a[..n] && (a + b)[n..] == a[n..] + b;
  }

  /** What follows a closed token's white space does not change it. */
  lemma BodyStops(a: string, b: string)
    requires Breaks(b) && Body(a).closed
    ensures Body(a + b) == Body(a).(rest := Body(a).rest + b)
  {
    if a != "" && IsQuote(a[0]) {
      QuoteStops(a, b);
    } else {
      WordStops(a, b);
    }
  }

  lemma {:induction false} RunStops(a: string, b: string)
    requires Breaks(b)
    ensures WordLength(a + b) == WordLength(a)
  {
    if a == "" {
      assert a + b == b;
    } else {
      assert (a + b)[1..] == a[1..] + b;
      RunStops(a[1..], b);
    }
  }

  lemma FirstStops(a: string, b: string)
    requires Breaks(b) && a != "" && !IsSpace(a[0]) && First(a).closed
    ensures First(a + b) == First(a).(rest := First(a).rest + b)
  {
    if a[0] == '-' {
      assert (a + b)[1..] == a[1..] + b;
      BodyStops(a[1..], b);
    } else {
      BodyStops(a, b);
    }
  }

  lemma TermsUnfold(s: string)
    requires s != "" && !IsSpace(s[0])
    ensures Terms(s) == Kept(First(s)) + Terms(First(s).rest)
    ensures Terminated(s) <==> First(s).closed && Terminated(First(s).rest)
  {
  }

  /** Terms do not run across white space that follows a terminated text. */
  lemma {:induction false} TermsConcat(a: string, b: string)
    requires Breaks(b) && Terminated(a)
    ensures Terms(a + b) == Terms(a) + Terms(b)
    ensures Terminated(a + b) <==> Terminated(b)
    decreases |a|
  {
    if a == "" {
      assert a + b == b;
    } else if IsSpace(a[0]) {
      assert (a + b)[1..] == a[1..] + b;
      TermsConcat(a[1..], b);
    } else {
      TermsConcat(First(a).rest, b);
      TokenKept(a, b);
      Associate(Kept(First(a)), Terms(First(a).rest), Terms(b));
    }
  }

  lemma TokenKept(a: string, b: string)
    requires Breaks(b) && a != "" && !IsSpace(a[0]) && First(a).closed
    ensures Terms(a) == Kept(First(a)) + Terms(First(a).rest)
    ensures Terms(a + b) == Kept(First(a)) + Terms(First(a).rest + b)
    ensures Terminated(a + b) <==> Terminated(First(a).rest + b)
  {
    FirstStops(a, b);
    TermsUnfold(a);
    TermsUnfold(a + b);
  }

  lemma Associate(a: seq<Term>, b: seq<Term>, c: seq<Term>)
    ensures a + (b + c) == a + b + c
  {
  }

  lemma BodyStaysOpen(a: string, b: string)
    requires !Body(a).closed && AllSpace(b)
    ensures !Body(a + b).closed
  {
    assert (a + b)[1..] == a[1..] + b;
    assert a[0] !in b;
  }

  /** An open quote swallows white space to the end. */
  lemma {:induction false} OpenStaysOpen(a: string, b: string)
    requires !Terminated(a) && AllSpace(b)
    ensures !Terminated(a + b)
    decreases |a|
  {
    assert (a + b)[0] == a[0] && (a + b)[1..] == a[1..] + b;
    if IsSpace(a[0]) {
      OpenStaysOpen(a[1..], b);
    } else if !First(a).closed {
      BodyStaysOpen(if a[0] == '-' then a[1..] else a, b);
    } else {
      RestStaysOpen(a, b);
    }
  }

  lemma RestStaysOpen(a: string, b: string)
    requires !Terminated(a) && AllSpace(b) && !IsSpace(a[0]) && First(a).closed
    ensures !Terminated(a + b)
    decreases |a|, 0
  {
    if b == "" {
      assert a + b == a;
    } else {
      OpenStaysOpen(First(a).rest, b);
      FirstStops(a, b);
    }
  }

  lemma {:induction false} SpaceHasNoTerms(s: string)
    requires AllSpace(s)
    ensures Terms(s) == [] && Terminated(s)
  {
    if s != "" {
      SpaceHasNoTerms(s[1..]);
    }
  }

  // ---- trimming ----

  lemma {:induction false} TrimLeftKeeps(s: string)
    ensures Terms(TrimLeft(s)) == Terms(s) && (Terminated(TrimLeft(s)) <==> Terminated(s))
    ensures TrimLeft(s) != "" ==> !IsSpace(TrimLeft(s)[0])
  {
    if s != "" && IsSpace(s[0]) {
      TrimLeftKeeps(s[1..]);
    }
  }

  lemma {:induction false} TrimRightSplits(s: string)
    ensures TrimRight(s) <= s && AllSpace(s[|TrimRight(s)|..])
    ensures TrimRight(s) != "" ==> !IsSpace(TrimRight(s)[|TrimRight(s)| - 1])
  {
    if s != "" && IsSpace(s[|s| - 1]) {
      TrimRightSplits(s[..|s| - 1]);
      assert s[|TrimRight(s)|..] == s[..|s| - 1][|TrimRight(s)|..] + [s[|s| - 1]];
    }
  }

  lemma TailDropped(core: string, tail: string)
    requires Terminated(core + tail) && AllSpace(tail)
    ensures Terms(core + tail) == Terms(core) && Terminated(core)
  {
    if !Terminated(core) {
      OpenStaysOpen(core, tail);
    }
    if tail != "" {
      TermsConcat(core, tail);
      SpaceHasNoTerms(tail);
    } else {
      assert core + tail == core;
    }
  }

  /** Trimming a terminated text changes none of its terms. */
  lemma TrimKeeps(s: string)
    requires Terminated(s)
    ensures Terms(Trim(s)) == Terms(s) && Terminated(Trim(s))
  {
    var left := TrimLeft(s);
    TrimLeftKeeps(s);
    TrimRightSplits(left);
    var core := TrimRight(left);
    assert left == core + left[|core|..];
    TailDropped(core, left[|core|..]);
  }

  // ---- a term added reads back as itself ----

  /** What can be typed so that it reads back: something, with no double quote
      when it must be quoted, and no leading quote when it is not. */
  predicate Printable(t: string) {
    var text := TermOf(t).text;
    && text != ""
    && if HasSpace(text) then '"' !in text else !IsQuote(text[0])
  }

  lemma BodyOfQuoted(text: string)
    requires '"' !in text
    ensures Body("\"" + text + "\"") == Token(false, text, "", true)
  {
    var s := "\"" + text + "\"";
    assert s[1..] == text + "\"";
    FirstIndex(s[1..], |text|, '"');
    assert s[1..][..|text|] == text && s[1..][|text| + 1..] == "";
  }

  lemma {:induction false} RunOfWord(text: string)
    requires !HasSpace(text)
    ensures WordLength(text) == |text|
  {
    if text != "" {
      assert forall i :: 0 <= i < |text[1..]| ==> text[1..][i] == text[i + 1];
      RunOfWord(text[1..]);
    }
  }

  lemma SignedToken(neg: bool, body: string)
    requires body != "" && IsQuote(body[0])
    ensures var s := Signed(neg, body); s != "" && !IsSpace(s[0]) && First(s) == Body(body).(neg := neg)
  {
    assert ("-" + body)[1..] == body;
  }

  lemma SpacedToken(t: string)
    requires Printable(t) && HasSpace(TermOf(t).text)
    ensures Quoted(t) != "" && !IsSpace(Quoted(t)[0]) &&
      First(Quoted(t)) == Token(TermOf(t).neg, TermOf(t).text, "", true)
  {
    var Term(neg, text) := TermOf(t);
    BodyOfQuoted(text);
    SignedToken(neg, "\"" + text + "\"");
  }

  lemma BareToken(t: string)
    requires Printable(t) && !HasSpace(TermOf(t).text)
    ensures Quoted(t) == t != "" && !IsSpace(t[0]) && First(t) == Token(TermOf(t).neg, TermOf(t).text, "", true)
  {
    var text := TermOf(t).text;
    RunOfWord(text);
    assert Body(text) == Token(false, text, "", true);
    assert t[0] == '-' || t == text;
  }

  lemma QuotedReadsBack(t: string)
    requires Printable(t)
    ensures Terms(Quoted(t)) == [TermOf(t)] && Terminated(Quoted(t))
  {
    if HasSpace(TermOf(t).text) {
      SpacedToken(t);
    } else {
      BareToken(t);
    }
    TermsUnfold(Quoted(t));
    assert Terms("") == [] && Terminated("");
  }

  /** The text after adding a term that was not there. */
  lemma AppendedTerms(value: string, t: string)
    requires Terminated(value) && TermOf(t) !in Terms(value)
    ensures Terms(Added(value, t)) == Terms(value) + Terms(Quoted(t))
    ensures Terminated(Added(value, t)) <==> Terminated(Quoted(t))
  {
    TrimKeeps(value);
    var cur, q := Trim(value), Quoted(t);
    if cur != "" {
      assert (" " + q)[1..] == q;
      TermsConcat(cur, " " + q);
      assert cur + " " + q == cur + (" " + q);
    } else {
      assert "" + q == q && [] + Terms(q) == Terms(q);
    }
  }

  /** Adding a printable term to a text without an open quote yields the old
      terms plus exactly that one, unless it was there. */
  lemma AddReadsBack(value: string, t: string)
    requires Terminated(value) && Printable(t)
    ensures Terms(Added(value, t)) == Terms(value) + if TermOf(t) in Terms(value) then [] else [TermOf(t)]
    ensures Terminated(Added(value, t)) && TermOf(t) in Terms(Added(value, t))
  {
    TrimKeeps(value);
    if TermOf(t) !in Terms(value) {
      AppendedTerms(value, t);
      QuotedReadsBack(t);
    }
  }

  /** Adding it again changes nothing. */
  lemma AddTwice(value: string, t: string)
    requires Terminated(value) && Printable(t)
    ensures Added(Added(value, t), t) == Added(value, t)
  {
    AddReadsBack(value, t);
    TrimKeeps(Added(value, t));
  }

  // ---- and only printable terms do ----

  /** No term is longer than its text, and one with white space is shorter: it
      took a quote. None is empty. */
  lemma {:induction false} TermsFit(s: string, term: Term)
    requires term in Terms(s)
    ensures 0 < |term.text| <= |s|
    ensures HasSpace(term.text) ==> |term.text| < |s|
    decreases |s|
  {
    if IsSpace(s[0]) {
      TermsFit(s[1..], term);
    } else {
      var t := First(s);
      if term in Kept(t) {
        BodyFits(if s[0] == '-' then s[1..] else s);
      } else {
        TermsFit(t.rest, term);
      }
    }
  }

  lemma BodyFits(s: string)
    ensures |Body(s).text| <= |s|
    ensures HasSpace(Body(s).text) ==> |Body(s).text| < |s|
  {
  }

  /** A term that starts with a quote where none can stand loses it. */
  lemma BareQuoteIsLost(t: string)
    requires var text := TermOf(t).text; text != "" && !HasSpace(text) && IsQuote(text[0])
    ensures TermOf(t) !in Terms(Quoted(t))
  {
    var text := TermOf(t).text;
    var first := First(t);
    assert Body(text).text != text && |Body(text).text| + |Body(text).rest| < |text|;
    assert (if t[0] == '-' then t[1..] else t) == text;
    if TermOf(t) in Terms(first.rest) {
      TermsFit(first.rest, TermOf(t));
    }
    assert Terms(t) == Kept(first) + Terms(first.rest);
  }

  lemma BodyOfBroken(text: string)
    requires '"' in text
    ensures var at, t := IndexOf(text, '"'), Body("\"" + text + "\"");
      at >= 0 && t.text == text[..at] && |t.rest| == |text| - at
  {
    var s := "\"" + text + "\"";
    var at := IndexOf(text, '"');
    assert s[1..] == text + "\"";
    assert s[1..][..at] == text[..at];
    FirstIndex(s[1..], at, '"');
  }

  lemma FirstOfBroken(t: string)
    requires var text := TermOf(t).text; HasSpace(text) && '"' in text
    ensures var q, text := Quoted(t), TermOf(t).text;
      q != "" && !IsSpace(q[0]) && |First(q).text| < |text| && |First(q).rest| <= |text|
  {
    var Term(neg, text) := TermOf(t);
    BodyOfBroken(text);
    SignedToken(neg, "\"" + text + "\"");
  }

  /** A double quote inside a quoted term ends it. */
  lemma InnerQuoteEnds(t: string)
    requires var text := TermOf(t).text; HasSpace(text) && '"' in text
    ensures Terms(Quoted(t)) != [TermOf(t)]
  {
    FirstOfBroken(t);
    BrokenTerms(Quoted(t), First(Quoted(t)), TermOf(t));
  }

  lemma BrokenTerms(q: string, first: Token, term: Term)
    requires q != "" && !IsSpace(q[0]) && first == First(q)
    requires HasSpace(term.text) && |first.text| < |term.text| && |first.rest| <= |term.text|
    ensures Terms(q) != [term]
  {
    if term in Terms(first.rest) {
      TermsFit(first.rest, term);
    }
    if first.text != "" {
      assert Terms(q)[0].text == first.text;
    } else {
      assert Terms(q) == Terms(first.rest);
      assert term in [term];
    }
  }

  /** Given a text without an open quote, adding a new term works as intended
      exactly when the term is printable. */
  lemma AddReadsBackExactly(value: string, t: string)
    requires Terminated(value) && TermOf(t) !in Terms(value)
    ensures Terms(Added(value, t)) == Terms(value) + [TermOf(t)] <==> Printable(t)
  {
    AppendedTerms(value, t);
    if Printable(t) {
      QuotedReadsBack(t);
    } else {
      NotReadBack(t);
      SameTail(Terms(value), Terms(Quoted(t)), [TermOf(t)]);
    }
  }

  lemma NotReadBack(t: string)
    requires !Printable(t)
    ensures Terms(Quoted(t)) != [TermOf(t)]
  {
    var text := TermOf(t).text;
    if text == "" {
      if Terms(Quoted(t)) == [TermOf(t)] {
        TermsFit(Quoted(t), TermOf(t));
      }
    } else if HasSpace(text) {
      InnerQuoteEnds(t);
    } else {
      BareQuoteIsLost(t);
    }
  }

  lemma SameTail(a: seq<Term>, b: seq<Term>, c: seq<Term>)
    requires b != c
    ensures a + b != a + c
  {
    assert b == (a + b)[|a|..] && c == (a + c)[|a|..];
  }
}
