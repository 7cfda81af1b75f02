/** Decoding systemd's \xNN escapes in cgroup names (procinfo.go). Bytes are
    characters below 256. */
module Systemd {
  import opened Common
  import opened Numerals

  /** An escape stands here: a backslash, an x and two hexadecimal digits. */
  predicate EscapeAt(s: string, i: nat) {
    i + 3 < |s| && s[i] == '\\' && s[i + 1] == 'x' && HexPair(s[i + 2], s[i + 3]).Some?
  }

  function HexPair(high: char, low: char): (v: Option<nat>)
    ensures v.Some? ==> v.value < 256
  {
    match (DigitValue(high), DigitValue(low))
    case (Some(h), Some(l)) => if h < 16 && l < 16 then Some(16 * h + l) else None
    case _ => None
  }

  function Unescape(s: string): string {
    if s == "" then ""
    else if EscapeAt(s, 0) then [HexPair(s[2], s[3]).value as char] + Unescape(s[4..])
    else [s[0]] + Unescape(s[1..])
  }

  predicate HasEscape(s: string) {
    exists i :: 0 <= i < |s| - 1 && s[i] == '\\' && s[i + 1] == 'x'
  }

  lemma {:induction false} NothingToUnescape(s: string)
    requires !HasEscape(s)
    ensures Unescape(s) == s
  {
    if s != "" {
      assert forall i :: 0 <= i < |s[1..]| ==> s[1..][i] == s[i + 1];
      NothingToUnescape(s[1..]);
    }
  }

  /** The decoder as written: a short cut, then a loop. */
  method UnescapeSystemd(s: string) returns (out: string)
    ensures out == Unescape(s)
  {
    if !HasEscape(s) {
      NothingToUnescape(s);
      return s;
    }
    out := "";
    var i := 0;
    while i < |s|
      invariant 0 <= i <= |s|
      invariant out + Unescape(s[i..]) == Unescape(s)
    {
      UnescapeAt(s, i, out);
      if EscapeAt(s, i) {
        out := out + [HexPair(s[i + 2], s[i + 3]).value as char];
        i := i + 4;
      } else {
        out := out + [s[i]];
        i := i + 1;
      }
    }
  }

  lemma UnescapeAt(s: string, i: nat, out: string)
    requires i < |s|
    ensures EscapeAt(s, i) ==>
      out + Unescape(s[i..]) == out + [HexPair(s[i + 2], s[i + 3]).value as char] + Unescape(s[i + 4..])
    ensures !EscapeAt(s, i) ==> out + Unescape(s[i..]) == out + [s[i]] + Unescape(s[i + 1..])
  {
    var t := s[i..];
    assert EscapeAt(t, 0) <==> EscapeAt(s, i);
    if EscapeAt(s, i) {
      assert t[4..] == s[i + 4..];
    } else {
      assert t[1..] == s[i + 1..];
    }
  }

  // ---- any encoder ----

  /** What an encoder writes for one byte: the byte itself, or its two digits,
      each of either case. */
  datatype Piece = Plain(c: char) | Hex(c: char, highUpper: bool, lowUpper: bool)

  predicate IsHex(c: char) {
    '0' <= c <= '9' || 'a' <= c <= 'f' || 'A' <= c <= 'F'
  }

  /** After a backslash this would be taken for the rest of an escape. */
  predicate Completes(s: string) {
    |s| >= 3 && s[0] == 'x' && IsHex(s[1]) && IsHex(s[2])
  }

  /** A byte may be escaped; a backslash must be where what follows would make
      it an escape. */
  predicate Sound(ps: seq<Piece>) {
    ps == [] || (
      && (match ps[0] case Plain(c) => c != '\\' || !Completes(Encoded(ps[1..])) case Hex(c, _, _) => c as nat < 256)
      && Sound(ps[1..])
    )
  }

  function HexDigit(d: nat, upper: bool): char
    requires d < 16
  {
    if upper then Digit(d) else Nibble(d)
  }

  function Written(p: Piece): string {
    match p
    case Plain(c) => [c]
    case Hex(c, h, l) => ['\\', 'x', HexDigit(c as nat / 16 % 16, h), HexDigit(c as nat % 16, l)]
  }

  function Encoded(ps: seq<Piece>): string {
    if ps == [] then "" else Written(ps[0]) + Encoded(ps[1..])
  }

  function Meant(ps: seq<Piece>): string {
    if ps == [] then "" else [ps[0].c] + Meant(ps[1..])
  }

  lemma HexDigitValue(d: nat, upper: bool)
    requires d < 16
    ensures DigitValue(HexDigit(d, upper)) == Some(d)
  {
    DigitRoundTrip(d);
    NibbleRoundTrip(d);
  }

  lemma EscapeDecodes(high: char, low: char, c: char, rest: string)
    requires HexPair(high, low) == Some(c as nat)
    ensures Unescape(['\\', 'x', high, low] + rest) == [c] + Unescape(rest)
  {
    var s := ['\\', 'x', high, low] + rest;
    assert s[2] == high && s[3] == low && s[4..] == rest;
  }

  lemma HexPairOf(v: nat, highUpper: bool, lowUpper: bool)
    requires v < 256
    ensures HexPair(HexDigit(v / 16 % 16, highUpper), HexDigit(v % 16, lowUpper)) == Some(v)
  {
    HexDigitValue(v / 16 % 16, highUpper);
    HexDigitValue(v % 16, lowUpper);
  }

  lemma HexDecodes(p: Piece, rest: string)
    requires p.Hex? && p.c as nat < 256
    ensures Unescape(Written(p) + rest) == [p.c] + Unescape(rest)
  {
    var v := p.c as nat;
    HexPairOf(v, p.highUpper, p.lowUpper);
    EscapeDecodes(HexDigit(v / 16 % 16, p.highUpper), HexDigit(v % 16, p.lowUpper), p.c, rest);
  }

  lemma PlainDecodes(c: char, rest: string)
    requires c != '\\' || !Completes(rest)
    ensures Unescape([c] + rest) == [c] + Unescape(rest)
  {
    var s := [c] + rest;
    assert s[1..] == rest;
    if |rest| >= 3 {
      assert s[1] == rest[0] && s[2] == rest[1] && s[3] == rest[2];
    }
  }

  /** Decoding undoes every encoder that escapes whatever bytes it likes and each
      backslash that could otherwise be taken for an escape. */
  lemma {:induction false} DecodingUndoesEncoding(ps: seq<Piece>)
    requires Sound(ps)
    ensures Unescape(Encoded(ps)) == Meant(ps)
  {
    if ps != [] {
      var rest := Encoded(ps[1..]);
      DecodingUndoesEncoding(ps[1..]);
      if ps[0].Plain? {
        PlainDecodes(ps[0].c, rest);
      } else {
        HexDecodes(ps[0], rest);
      }
    }
  }

  /** One left raw that could be is: the two characters and the digits come out
      as one byte. */
  lemma RawBackslashIsTaken(c: char, highUpper: bool, lowUpper: bool, rest: string)
    requires c as nat < 256
    ensures var digits := Written(Hex(c, highUpper, lowUpper))[1..];
      Completes(digits + rest) && Unescape(Written(Plain('\\')) + (digits + rest)) == [c] + Unescape(rest)
  {
    var p := Hex(c, highUpper, lowUpper);
    HexDecodes(p, rest);
    HexDigitValue(c as nat / 16, highUpper);
    HexDigitValue(c as nat % 16, lowUpper);
    assert Written(p) + rest == Written(Plain('\\')) + (Written(p)[1..] + rest);
  }
}
