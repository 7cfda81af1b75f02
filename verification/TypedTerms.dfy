/** What the filter box makes of what is typed (web/index.html): a line of words,
    each bare or in quotes, with or without a minus, is read as those words. */
module TypedTerms {
  import opened Strings
  import opened FilterTerms

  datatype Spelling = Bare | InDouble | InSingle

  /** A word as typed: the white space before it, its minus, its text, its quotes. */
  datatype Word = Word(gap: string, neg: bool, text: string, how: Spelling)

  function Body(w: Word): string {
    match w.how
    case Bare => w.text
    case InDouble => "\"" + w.text + "\""
    case InSingle => "'" + w.text + "'"
  }

  function Typed(w: Word): string {
    Signed(w.neg, Body(w))
  }

  /** A bare word holds no white space and starts with no quote, nor with a minus
      that is not its own; one in quotes holds anything but that quote. */
  predicate CanType(w: Word) {
    match w.how
    case Bare =>
      && !HasSpace(w.text)
      && (if w.text == "" then w.neg else w.text[0] != '"' && w.text[0] != '\'' && (w.text[0] == '-' ==> w.neg))
    case InDouble => '"' !in w.text
    case InSingle => '\'' !in w.text
  }

  /** The line, and what is typed after it. */
  function Line(ws: seq<Word>, tail: string): string {
    if ws == [] then tail else ws[0].gap + (Typed(ws[0]) + Line(ws[1..], tail))
  }

  /** White space stands between the words, at least some of it after a bare one. */
  predicate WellTyped(ws: seq<Word>, tail: string)
    decreases |ws|
  {
    ws == [] || (
      && CanType(ws[0]) && AllSpace(ws[0].gap)
      && (ws[0].how.Bare? && Line(ws[1..], tail) != "" ==> IsSpace(Line(ws[1..], tail)[0]))
      && WellTyped(ws[1..], tail)
    )
  }

  /** The words that are not empty. */
  function Meant(ws: seq<Word>): seq<Term> {
    if ws == [] then []
    else if ws[0].text == "" then Meant(ws[1..])
    else [Term(ws[0].neg, ws[0].text)] + Meant(ws[1..])
  }

  lemma BareRun(text: string, rest: string)
    requires !HasSpace(text) && (rest != "" ==> IsSpace(rest[0]))
    ensures WordLength(text + rest) == |text|
  {
    RunOfWord(text);
    if rest == "" {
      assert text + rest == text;
    } else {
      RunStops(text, rest);
    }
  }

  lemma QuotedRun(q: char, text: string, rest: string)
    requires IsQuote(q) && q !in text
    ensures FilterTerms.Body([q] + text + [q] + rest) == Token(false, text, rest, true)
  {
    var s := [q] + text + [q] + rest;
    var t := s[1..];
    assert t == text + ([q] + rest) && t[..|text|] == text;
    FirstIndex(t, |text|, q);
    assert t[|text| + 1..] == rest;
  }

  lemma BodyReads(w: Word, rest: string)
    requires CanType(w) && (w.how.Bare? && rest != "" ==> IsSpace(rest[0]))
    ensures FilterTerms.Body(Body(w) + rest) == Token(false, w.text, rest, true)
  {
    var s := Body(w) + rest;
    match w.how
    case Bare =>
      BareRun(w.text, rest);
      assert s[..|w.text|] == w.text && s[|w.text|..] == rest;
    case InDouble =>
      QuotedRun('"', w.text, rest);
      assert s == ['"'] + w.text + ['"'] + rest;
    case InSingle =>
      QuotedRun('\'', w.text, rest);
      assert s == ['\''] + w.text + ['\''] + rest;
  }

  lemma SignReads(neg: bool, b: string)
    requires neg || (b != "" && b[0] != '-' && !IsSpace(b[0]))
    ensures var s := Signed(neg, b);
      s != "" && !IsSpace(s[0]) && First(s) == FilterTerms.Body(b).(neg := neg)
  {
    assert ("-" + b)[1..] == b;
  }

  lemma WordReads(w: Word, rest: string)
    requires CanType(w) && (w.how.Bare? && rest != "" ==> IsSpace(rest[0]))
    ensures var s := Typed(w) + rest;
      s != "" && !IsSpace(s[0]) && First(s) == Token(w.neg, w.text, rest, true)
  {
    BodyReads(w, rest);
    var b := Body(w) + rest;
    if !w.neg {
      assert b[0] == Body(w)[0];
    }
    SignReads(w.neg, b);
    assert "-" + Body(w) + rest == "-" + b;
  }

  lemma {:induction false} GapSkipped(gap: string, s: string)
    requires AllSpace(gap)
    ensures Terms(gap + s) == Terms(s) && (Terminated(gap + s) <==> Terminated(s))
  {
    if gap == "" {
      assert gap + s == s;
    } else {
      assert (gap + s)[1..] == gap[1..] + s;
      GapSkipped(gap[1..], s);
    }
  }

  /** What is typed is what is meant, and what follows it is read by itself. */
  lemma {:induction false} LineReadsBack(ws: seq<Word>, tail: string)
    requires WellTyped(ws, tail)
    ensures Terms(Line(ws, tail)) == Meant(ws) + Terms(tail)
    ensures Terminated(Line(ws, tail)) <==> Terminated(tail)
  {
    if ws != [] {
      var w, rest := ws[0], Line(ws[1..], tail);
      LineReadsBack(ws[1..], tail);
      WordReads(w, rest);
      GapSkipped(w.gap, Typed(w) + rest);
      TermsUnfold(Typed(w) + rest);
      Associate(Kept(First(Typed(w) + rest)), Meant(ws[1..]), Terms(tail));
    }
  }

  /** A quote that is never closed takes all that follows. */
  lemma OpenQuoteTakesAll(ws: seq<Word>, neg: bool, q: char, text: string)
    requires (q == '"' || q == '\'') && q !in text
    requires WellTyped(ws, Signed(neg, [q] + text))
    ensures Terms(Line(ws, Signed(neg, [q] + text))) == Meant(ws) + if text == "" then [] else [Term(neg, text)]
  {
    LineReadsBack(ws, Signed(neg, [q] + text));
    SignedToken(neg, [q] + text);
    assert ([q] + text)[1..] == text;
    TermsUnfold(Signed(neg, [q] + text));
    assert Terms("") == [];
  }

  /** A quote that is never closed, perhaps after a minus, or nothing. */
  predicate Open(s: string) {
    || s == ""
    || (IsQuote(s[0]) && s[0] !in s[1..])
    || (s[0] == '-' && |s| > 1 && IsQuote(s[1]) && s[1] !in s[2..])
  }

  lemma QuotedBody(b: string)
    requires b != "" && IsQuote(b[0]) && FilterTerms.Body(b).closed
    ensures var t := FilterTerms.Body(b); b[0] !in t.text && b == [b[0]] + t.text + [b[0]] + t.rest
  {
    var s, end := b[1..], IndexOf(b[1..], b[0]);
    assert b == [b[0]] + s;
    assert s == s[..end] + [s[end]] + s[end + 1..];
  }

  lemma BareBody(b: string)
    requires b == "" || !IsQuote(b[0])
    ensures var t := FilterTerms.Body(b);
      b == t.text + t.rest && !HasSpace(t.text) && (t.rest != "" ==> IsSpace(t.rest[0]))
  {
    var n := WordLength(b);
    assert b == b[..n] + b[n..];
  }

  lemma ClosedBody(neg: bool, b: string) returns (w: Word)
    requires FilterTerms.Body(b).closed && (neg || (b != "" && b[0] != '-' && !IsSpace(b[0])))
    ensures w.gap == "" && w.neg == neg && CanType(w) && b == Body(w) + FilterTerms.Body(b).rest
    ensures var rest := FilterTerms.Body(b).rest; w.how.Bare? && rest != "" ==> IsSpace(rest[0])
  {
    var text := FilterTerms.Body(b).text;
    if b == "" || !IsQuote(b[0]) {
      w := Word("", neg, text, Bare);
      BareBody(b);
    } else {
      w := Word("", neg, text, if b[0] == '"' then InDouble else InSingle);
      QuotedBody(b);
    }
  }

  lemma SignedConcat(neg: bool, a: string, b: string)
    ensures Signed(neg, a + b) == Signed(neg, a) + b
  {
    assert "-" + (a + b) == "-" + a + b;
  }

  /** The first word of a text that starts with one, unless its quote stays open. */
  lemma FirstWord(s: string) returns (w: Word)
    requires s != "" && !IsSpace(s[0]) && First(s).closed
    ensures w.gap == "" && CanType(w) && s == Typed(w) + First(s).rest
    ensures w.how.Bare? && First(s).rest != "" ==> IsSpace(First(s).rest[0])
  {
    var neg := s[0] == '-';
    var b := if neg then s[1..] else s;
    assert s == Signed(neg, b);
    w := ClosedBody(neg, b);
    SignedConcat(neg, Body(w), First(s).rest);
  }

  /** Every text is such a line, with nothing after it but white space and perhaps
      an open quote: what is read is settled for every text. */
  lemma {:induction false} EveryTextIsALine(s: string) returns (ws: seq<Word>, gap: string, open: string)
    ensures s == Line(ws, gap + open) && WellTyped(ws, gap + open) && AllSpace(gap) && Open(open)
    decreases |s|
  {
    if s == "" {
      ws, gap, open := [], "", s;
    } else if IsSpace(s[0]) {
      ws, gap, open := EveryTextIsALine(s[1..]);
      assert s == [s[0]] + s[1..];
      if ws == [] {
        gap := [s[0]] + gap;
        assert s == gap + open;
      } else {
        ws := OneMoreBlank(s[0], ws, gap + open);
      }
    } else if First(s).closed {
      var w := FirstWord(s);
      ws, gap, open := EveryTextIsALine(First(s).rest);
      assert ([w] + ws)[1..] == ws;
      ws := [w] + ws;
    } else {
      ws, gap, open := [], "", s;
      assert gap + open == s;
      assert s[0] == '-' ==> s[1..][0] == s[1] && s[1..][1..] == s[2..];
    }
  }

  lemma OneMoreBlank(c: char, ws: seq<Word>, tail: string) returns (more: seq<Word>)
    requires ws != [] && WellTyped(ws, tail) && IsSpace(c)
    ensures WellTyped(more, tail) && Line(more, tail) == [c] + Line(ws, tail)
  {
    var w := ws[0].(gap := [c] + ws[0].gap);
    assert Typed(w) == Typed(ws[0]);
    more := [w] + ws[1..];
    assert more[1..] == ws[1..];
    assert w.gap + (Typed(w) + Line(ws[1..], tail)) == [c] + (ws[0].gap + (Typed(w) + Line(ws[1..], tail)));
  }
}
