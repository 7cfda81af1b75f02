/** The DNS name asked for an address (owner.go): octets reversed as in section
    3.5 of RFC 1035, nibbles reversed as in section 2.5 of RFC 3596. */
module CymruNames {
  import opened Numerals
  import opened Strings
  import opened SocketKeys

  const ZONE4 := "origin.asn.cymru.com"
  const ZONE6 := "origin6.asn.cymru.com"

  predicate Valid(ip: IP) {
    |ip.bytes| == if ip.V4? then 4 else 16
  }

  /** The bytes from the `n`-th down to the first, as nibbles, low one first. */
  function Nibbles(b: seq<Byte>, n: nat): (s: string)
    requires n <= |b|
    ensures |s| == 4 * n
  {
    if n == 0 then "" else [Nibble(b[n - 1] % 16), '.', Nibble(b[n - 1] / 16), '.'] + Nibbles(b, n - 1)
  }

  function OriginName(ip: IP): string
    requires Valid(ip)
  {
    var b := ip.bytes;
    match ip
    case V4(_) => Decimal(b[3]) + "." + Decimal(b[2]) + "." + Decimal(b[1]) + "." + Decimal(b[0]) + "." + ZONE4
    case V6(_) => Nibbles(b, 16) + ZONE6
  }

  /** The name as built: for IPv6, a loop from the last byte to the first. */
  method CymruOriginName(ip: IP) returns (name: string)
    requires Valid(ip)
    ensures name == OriginName(ip)
  {
    var b := ip.bytes;
    if ip.V4? {
      return Decimal(b[3]) + "." + Decimal(b[2]) + "." + Decimal(b[1]) + "." + Decimal(b[0]) + "." + ZONE4;
    }
    name := ReversedNibbles(b);
    name := name + ZONE6;
  }

  method ReversedNibbles(b: seq<Byte>) returns (name: string)
    ensures name == Nibbles(b, |b|)
  {
    ghost var whole := Nibbles(b, |b|);
    name := "";
    var i := |b|;
    while i > 0
      invariant 0 <= i <= |b|
      invariant name + Nibbles(b, i) == whole
    {
      i := i - 1;
      var low, high := [Nibble(b[i] % 16), '.'], [Nibble(b[i] / 16), '.'];
      NibblesUnfold(b, i);
      FourMore(name, low, high, Nibbles(b, i));
      name := name + low + high;
    }
    assert name + "" == name;
  }

  lemma NibblesUnfold(b: seq<Byte>, n: nat)
    requires n < |b|
    ensures Nibbles(b, n + 1) == [Nibble(b[n] % 16), '.', Nibble(b[n] / 16), '.'] + Nibbles(b, n)
  {
  }

  lemma FourMore(name: string, low: string, high: string, rest: string)
    requires |low| == |high| == 2
    ensures name + low + high + rest == name + ([low[0], low[1], high[0], high[1]] + rest)
  {
  }

  lemma NibbleInjective(d: nat, e: nat)
    requires d < 16 && e < 16 && Nibble(d) == Nibble(e)
    ensures d == e
  {
    NibbleRoundTrip(d);
    NibbleRoundTrip(e);
  }

  lemma ByteFromNibbles(x: Byte, y: Byte)
    requires Nibble(x % 16) == Nibble(y % 16) && Nibble(x / 16) == Nibble(y / 16)
    ensures x == y
  {
    NibbleInjective(x % 16, y % 16);
    NibbleInjective(x / 16, y / 16);
  }

  lemma {:induction false} NibblesInjective(b: seq<Byte>, c: seq<Byte>, n: nat)
    requires n <= |b| && n <= |c| && Nibbles(b, n) == Nibbles(c, n)
    ensures b[..n] == c[..n]
  {
    if n > 0 {
      var x, y := Nibbles(b, n), Nibbles(c, n);
      assert x[4..] == Nibbles(b, n - 1) && y[4..] == Nibbles(c, n - 1);
      assert x[0] == y[0] && x[2] == y[2];
      NibblesInjective(b, c, n - 1);
      ByteFromNibbles(b[n - 1], c[n - 1]);
      assert b[..n] == b[..n - 1] + [b[n - 1]] && c[..n] == c[..n - 1] + [c[n - 1]];
    }
  }

  lemma DecimalHasNoDot(n: nat)
    ensures '.' !in Decimal(n)
  {
    ShowIsDigits(10, n);
  }

  /** A label and what follows it can be told apart. */
  lemma LabelSplits(a: nat, s: string, b: nat, t: string)
    requires Decimal(a) + "." + s == Decimal(b) + "." + t
    ensures a == b && s == t
  {
    DecimalHasNoDot(a);
    DecimalHasNoDot(b);
    SplitAtFirst(Decimal(a), s, Decimal(b), t, '.');
    ShowInjective(10, a, b);
  }

  /** The name from its `n`-th label on, the zone last. */
  function From(b: seq<Byte>, n: nat, zone: string): string
    requires n <= |b|
  {
    if n == 0 then zone else Decimal(b[n - 1]) + "." + From(b, n - 1, zone)
  }

  lemma NameFromLabels(b: seq<Byte>)
    requires |b| == 4
    ensures OriginName(V4(b)) == From(b, 4, ZONE4)
  {
    Regroup(Decimal(b[3]), Decimal(b[2]), Decimal(b[1]), Decimal(b[0]), ZONE4);
    assert From(b, 1, ZONE4) == Decimal(b[0]) + "." + From(b, 0, ZONE4);
    assert From(b, 2, ZONE4) == Decimal(b[1]) + "." + From(b, 1, ZONE4);
    assert From(b, 3, ZONE4) == Decimal(b[2]) + "." + From(b, 2, ZONE4);
  }

  lemma Regroup(d: string, c: string, b: string, a: string, z: string)
    ensures d + "." + c + "." + b + "." + a + "." + z == d + "." + (c + "." + (b + "." + (a + "." + z)))
  {
  }

  lemma {:induction false} FromInjective(b: seq<Byte>, c: seq<Byte>, n: nat, zone: string)
    requires n <= |b| && n <= |c| && From(b, n, zone) == From(c, n, zone)
    ensures b[..n] == c[..n]
  {
    if n > 0 {
      LabelSplits(b[n - 1], From(b, n - 1, zone), c[n - 1], From(c, n - 1, zone));
      FromInjective(b, c, n - 1, zone);
      assert b[..n] == b[..n - 1] + [b[n - 1]] && c[..n] == c[..n - 1] + [c[n - 1]];
    }
  }

  lemma OctetsInjective(b: seq<Byte>, c: seq<Byte>)
    requires |b| == |c| == 4 && OriginName(V4(b)) == OriginName(V4(c))
    ensures b == c
  {
    NameFromLabels(b);
    NameFromLabels(c);
    FromInjective(b, c, 4, ZONE4);
    assert b[..4] == b && c[..4] == c;
  }

  /** The fifteenth character from the end tells the zones apart. */
  lemma ZonesDiffer(ip: IP)
    requires Valid(ip)
    ensures |OriginName(ip)| >= 21
    ensures OriginName(ip)[|OriginName(ip)| - 15] == if ip.V4? then 'n' else '6'
  {
    var name := OriginName(ip);
    if ip.V4? {
      var head :=
        Decimal(ip.bytes[3]) + "." + Decimal(ip.bytes[2]) + "." + Decimal(ip.bytes[1]) + "." + Decimal(ip.bytes[0]);
      assert name == head + "." + ZONE4 && |ZONE4| == 20 && ZONE4[5] == 'n';
    } else {
      assert name == Nibbles(ip.bytes, 16) + ZONE6 && |ZONE6| == 21 && ZONE6[6] == '6';
    }
  }

  /** Different addresses are asked about under different names. */
  lemma NameIsInjective(a: IP, b: IP)
    requires Valid(a) && Valid(b) && OriginName(a) == OriginName(b)
    ensures a == b
  {
    ZonesDiffer(a);
    ZonesDiffer(b);
    if a.V4? {
      OctetsInjective(a.bytes, b.bytes);
    } else {
      var x, y := Nibbles(a.bytes, 16), Nibbles(b.bytes, 16);
      assert (x + ZONE6)[..64] == x && (y + ZONE6)[..64] == y;
      NibblesInjective(a.bytes, b.bytes, 16);
      assert a.bytes[..16] == a.bytes && b.bytes[..16] == b.bytes;
    }
  }

  // ---- label by label ----

  /** The labels of a domain name. */
  function Labels(s: string): seq<string>
    decreases |s|
  {
    var i := IndexOf(s, '.');
    if i < 0 then [s] else [s[..i]] + Labels(s[i + 1..])
  }

  lemma LabelsSplit(part: string, rest: string)
    requires '.' !in part
    ensures Labels(part + "." + rest) == [part] + Labels(rest)
  {
    var s := part + "." + rest;
    assert s[..|part|] == part && s[|part| + 1..] == rest;
    FirstIndex(s, |part|, '.');
  }

  /** The parts of an IPv4 address as it is written: its octets in decimal. */
  function Octets(b: seq<Byte>): seq<string> {
    if b == [] then [] else Octets(b[..|b| - 1]) + [Decimal(b[|b| - 1])]
  }

  /** Those of an IPv6 address: two hexadecimal digits a byte. */
  function HexDigits(b: seq<Byte>): seq<string> {
    if b == [] then [] else HexDigits(b[..|b| - 1]) + [[Nibble(b[|b| - 1] / 16)]] + [[Nibble(b[|b| - 1] % 16)]]
  }

  function Backwards(s: seq<string>): seq<string> {
    if s == [] then [] else [s[|s| - 1]] + Backwards(s[..|s| - 1])
  }

  lemma OneMoreBackwards(s: seq<string>, x: string, tail: seq<string>)
    ensures Backwards(s + [x]) + tail == [x] + (Backwards(s) + tail)
  {
    assert (s + [x])[..|s|] == s;
  }

  lemma OneMoreLabel(units: seq<string>, unit: string, zone: string, rest: string)
    requires '.' !in unit && Labels(rest) == Backwards(units) + Labels(zone)
    ensures Labels(unit + "." + rest) == Backwards(units + [unit]) + Labels(zone)
  {
    LabelsSplit(unit, rest);
    OneMoreBackwards(units, unit, Labels(zone));
  }

  lemma TwoLabels(low: char, high: char, s: string)
    ensures [low, '.', high, '.'] + s == [low] + "." + ([high] + "." + s)
  {
  }

  lemma NibbleIsLabel(d: nat)
    requires d < 16
    ensures '.' !in [Nibble(d)]
  {
    NibbleRoundTrip(d);
  }

  lemma FrontOf(b: seq<Byte>, n: nat)
    requires 0 < n <= |b|
    ensures b[..n][..n - 1] == b[..n - 1] && b[..n][n - 1] == b[n - 1]
  {
  }

  lemma {:induction false} NibbleLabels(b: seq<Byte>, n: nat, zone: string)
    requires n <= |b|
    ensures Labels(Nibbles(b, n) + zone) == Backwards(HexDigits(b[..n])) + Labels(zone)
  {
    if n == 0 {
      assert Nibbles(b, n) + zone == zone && b[..n] == [];
      NoLabels(zone);
    } else {
      NibbleLabels(b, n - 1, zone);
      FrontOf(b, n);
      TwoMoreLabels(HexDigits(b[..n - 1]), b[n - 1], zone, Nibbles(b, n - 1));
    }
  }

  lemma TwoMoreLabels(units: seq<string>, x: Byte, zone: string, rest: string)
    requires Labels(rest + zone) == Backwards(units) + Labels(zone)
    ensures Labels([Nibble(x % 16), '.', Nibble(x / 16), '.'] + rest + zone) ==
      Backwards(units + [[Nibble(x / 16)]] + [[Nibble(x % 16)]]) + Labels(zone)
  {
    var high, low := [Nibble(x / 16)], [Nibble(x % 16)];
    NibbleIsLabel(x / 16);
    NibbleIsLabel(x % 16);
    OneMoreLabel(units, high, zone, rest + zone);
    OneMoreLabel(units + [high], low, zone, high + "." + (rest + zone));
    TwoLabels(Nibble(x % 16), Nibble(x / 16), rest + zone);
    Concat3([Nibble(x % 16), '.', Nibble(x / 16), '.'], rest, zone);
  }

  lemma Concat3(a: string, b: string, c: string)
    ensures a + b + c == a + (b + c)
  {
  }

  lemma OneMoreOctet(units: seq<string>, x: Byte, zone: string, rest: string)
    requires Labels(rest) == Backwards(units) + Labels(zone)
    ensures Labels(Decimal(x) + "." + rest) == Backwards(units + [Decimal(x)]) + Labels(zone)
  {
    DecimalHasNoDot(x);
    OneMoreLabel(units, Decimal(x), zone, rest);
  }

  lemma OctetsGrow(b: seq<Byte>, n: nat)
    requires 0 < n <= |b|
    ensures Octets(b[..n]) == Octets(b[..n - 1]) + [Decimal(b[n - 1])]
  {
    FrontOf(b, n);
  }

  lemma NoLabels(zone: string)
    ensures Backwards([]) + Labels(zone) == Labels(zone)
  {
  }

  lemma {:induction false} OctetLabels(b: seq<Byte>, n: nat, zone: string)
    requires n <= |b|
    ensures Labels(From(b, n, zone)) == Backwards(Octets(b[..n])) + Labels(zone)
  {
    if n == 0 {
      assert b[..n] == [];
      NoLabels(zone);
    } else {
      OctetLabels(b, n - 1, zone);
      OctetsGrow(b, n);
      OneMoreOctet(Octets(b[..n - 1]), b[n - 1], zone, From(b, n - 1, zone));
    }
  }

  /** The name asked is the address backwards, part by part, then the zone. */
  lemma NameIsReversed(ip: IP)
    requires Valid(ip)
    ensures Labels(OriginName(ip)) ==
      if ip.V4? then Backwards(Octets(ip.bytes)) + Labels(ZONE4) else Backwards(HexDigits(ip.bytes)) + Labels(ZONE6)
  {
    var b := ip.bytes;
    assert b[..|b|] == b;
    if ip.V4? {
      OctetLabels(b, 4, ZONE4);
      NameFromLabels(b);
    } else {
      NibbleLabels(b, 16, ZONE6);
    }
  }
}
