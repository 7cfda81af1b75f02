/** Two renderings of one socket that must meet: the hexadecimal lines of
    /proc/net parsed by conns.go, and the kernel-side map key of udpstats.go. */
module SocketKeys {
  import opened Common
  import opened Numerals
  import opened Strings

  const WORD32: int := 0x1_0000_0000
  const WORD16: int := 0x1_0000

  type Byte = b: nat | b < 256

  /** An address as netip holds it. */
  datatype IP = V4(bytes: seq<Byte>) | V6(bytes: seq<Byte>)

  /** How addresses are written; "invalid IP" is what the zero value prints. */
  type Writing = IP -> string

  /** The bytes of a word on a little-endian host, lowest first. */
  function Word4(w: nat): (b: seq<Byte>)
    requires w < WORD32
    ensures |b| == 4
  {
    var (w8, w16, w24) := (w / 256, w / 256 / 256, w / 256 / 256 / 256);
    [w % 256, w8 % 256, w16 % 256, w24 % 256]
  }

  function Bytes(words: seq<nat>): (b: seq<Byte>)
    requires forall i :: 0 <= i < |words| ==> words[i] < WORD32
    ensures |b| == 4 * |words|
  {
    if words == [] then [] else Bytes(words[..|words| - 1]) + Word4(words[|words| - 1])
  }

  /** IPv4-mapped addresses, section 2.5.5.2 of RFC 4291. */
  predicate Is4In6(ip: IP) {
    ip.V6? && |ip.bytes| == 16 && ip.bytes[..12] == [0, 0, 0, 0, 0, 0, 0, 0, 0, 0, 255, 255]
  }

  function Unmap(ip: IP): IP {
    if Is4In6(ip) then V4(ip.bytes[12..]) else ip
  }

  // ---- from /proc/net ----

  /** A word, read from eight digits. */
  function ReadWord(s: string): Option<nat> {
    Parse(16, s, WORD32)
  }

  function ReadWords(s: string, n: nat): Option<seq<nat>>
    requires |s| == 8 * n
  {
    if n == 0 then Some([])
    else
      match (ReadWords(s[..8 * n - 8], n - 1), ReadWord(s[8 * n - 8..]))
      case (Some(ws), Some(w)) => Some(ws + [w])
      case _ => None
  }

  lemma {:induction false} ReadWordsBounded(s: string, n: nat)
    requires |s| == 8 * n
    ensures ReadWords(s, n).Some? ==>
      |ReadWords(s, n).value| == n && forall i :: 0 <= i < n ==> ReadWords(s, n).value[i] < WORD32
  {
    if n > 0 {
      ReadWordsBounded(s[..8 * n - 8], n - 1);
    }
  }

  /** The address part, by its width: 8 digits for IPv4, 32 for IPv6. */
  function HexIP(s: string): Option<IP> {
    if |s| == 8 then
      match ReadWord(s)
      case Some(w) => Some(V4(Word4(w)))
      case None => None
    else if |s| == 32 then
      match ReadWords(s, 4)
      case Some(ws) => ReadWordsBounded(s, 4); Some(Unmap(V6(Bytes(ws))))
      case None => None
    else None
  }

  predicate TooLarge(s: string) {
    Digits(16, s).Some? && Digits(16, s).value >= WORD16
  }

  /** An unreadable port reads as 0; one that has grown too large by some digit
      as 65535, whatever follows. */
  function HexPort(s: string): nat {
    if exists k :: 0 <= k <= |s| && TooLarge(s[..k]) then 65535
    else
      match Parse(16, s, WORD16)
      case Some(p) => p
      case None => 0
  }

  /** "0100007F:1F90" and the 32-digit form. None stands for the zero address. */
  function HexAddr(s: string): (Option<IP>, nat) {
    var i := IndexOf(s, ':');
    if i < 0 then (None, 0) else (HexIP(s[..i]), HexPort(s[i + 1..]))
  }

  /** The parser, filling its byte buffer word by word. */
  method ParseHexAddr(s: string) returns (ip: Option<IP>, port: nat)
    ensures (ip, port) == HexAddr(s)
  {
    var i := IndexOf(s, ':');
    if i < 0 {
      return None, 0;
    }
    var hexIP := s[..i];
    port := HexPort(s[i + 1..]);
    if |hexIP| == 8 {
      var v := ReadWord(hexIP);
      ip := if v.Some? then Some(V4(Word4(v.value))) else None;
      return;
    }
    if |hexIP| != 32 {
      return None, port;
    }
    var b := FillBytes(hexIP);
    ip := if b.Some? then Some(Unmap(V6(b.value))) else None;
  }

  /** Sixteen bytes, a word at a time; None as soon as one cannot be read. */
  method FillBytes(hexIP: string) returns (bytes: Option<seq<Byte>>)
    requires |hexIP| == 32
    ensures match ReadWords(hexIP, 4)
            case Some(ws) => (forall i :: 0 <= i < |ws| ==> ws[i] < WORD32) && bytes == Some(Bytes(ws))
            case None => bytes == None
  {
    var b := new Byte[16](_ => 0);
    ghost var words: seq<nat> := [];
    for w := 0 to 4
      invariant |words| == w && ReadWords(hexIP[..8 * w], w) == Some(words)
      invariant forall j :: 0 <= j < w ==> words[j] < WORD32
      invariant b[..4 * w] == Bytes(words)
    {
      var v := FillWord(b, hexIP, w, words);
      if v.None? {
        return None;
      }
      words := words + [v.value];
    }
    assert hexIP[..32] == hexIP && b[..16] == b[..];
    bytes := Some(b[..]);
  }

  /** Reads word `w` of the text and puts its bytes where they belong. */
  method FillWord(b: array<Byte>, s: string, w: nat, ghost words: seq<nat>) returns (v: Option<nat>)
    requires b.Length == 16 && |s| == 32 && w < 4 && |words| == w
    requires ReadWords(s[..8 * w], w) == Some(words) && forall j :: 0 <= j < w ==> words[j] < WORD32
    requires b[..4 * w] == Bytes(words)
    modifies b
    ensures v.None? ==> ReadWords(s, 4) == None
    ensures v.Some? ==> v.value < WORD32 && ReadWords(s[..8 * (w + 1)], w + 1) == Some(words + [v.value])
    ensures v.Some? ==> b[..4 * (w + 1)] == Bytes(words + [v.value])
  {
    ReadPrefix(s, w);
    v := ReadWord(s[8 * w..8 * w + 8]);
    if v.None? {
      Unreadable(s, w + 1);
    } else {
      PutWord(b, 4 * w, v.value);
      BytesAppend(words, v.value);
    }
  }

  method PutWord(b: array<Byte>, at: nat, w: nat)
    requires at + 4 <= b.Length && w < WORD32
    modifies b
    ensures b[..at] == old(b[..at]) && b[at..at + 4] == Word4(w) && b[at + 4..] == old(b[at + 4..])
    ensures b[..at + 4] == old(b[..at]) + Word4(w)
  {
    var bytes := Word4(w);
    b[at], b[at + 1], b[at + 2], b[at + 3] := bytes[0], bytes[1], bytes[2], bytes[3];
    assert b[at..at + 4] == bytes;
    assert b[..at + 4] == b[..at] + b[at..at + 4];
  }

  lemma ReadPrefix(s: string, n: nat)
    requires 8 * n + 8 <= |s|
    ensures ReadWords(s[..8 * (n + 1)], n + 1) ==
      match (ReadWords(s[..8 * n], n), ReadWord(s[8 * n..8 * n + 8]))
      case (Some(ws), Some(w)) => Some(ws + [w])
      case _ => None
  {
    var t := s[..8 * (n + 1)];
    assert t[..8 * n] == s[..8 * n] && t[8 * n..] == s[8 * n..8 * n + 8];
  }

  lemma BytesAppend(words: seq<nat>, w: nat)
    requires (forall i :: 0 <= i < |words| ==> words[i] < WORD32) && w < WORD32
    ensures Bytes(words + [w]) == Bytes(words) + Word4(w)
  {
    assert (words + [w])[..|words|] == words;
  }

  lemma Unreadable(s: string, n: nat)
    requires |s| == 32 && n <= 4 && ReadWords(s[..8 * n], n) == None
    ensures ReadWords(s, 4) == None
  {
    ReadFails(s, n, 4);
    assert s[..32] == s;
  }

  /** A word that cannot be read spoils the whole. */
  lemma {:induction false} ReadFails(s: string, n: nat, m: nat)
    requires n <= m && 8 * m <= |s| && ReadWords(s[..8 * n], n) == None
    ensures ReadWords(s[..8 * m], m) == None
    decreases m
  {
    if n < m {
      ReadFails(s, n, m - 1);
      ReadPrefix(s, m - 1);
    }
  }

  // ---- as the kernel prints them ----

  function PrintWord(w: nat): string {
    Padded(16, w, 8)
  }

  function PrintWords(ws: seq<nat>): (s: string)
    ensures |s| == 8 * |ws|
  {
    if ws == [] then "" else PrintWords(ws[..|ws| - 1]) + PrintWord(ws[|ws| - 1])
  }

  /** An address and port as /proc/net shows them. */
  function PrintEnd(ws: seq<nat>, port: nat): string {
    PrintWords(ws) + ":" + Padded(16, port, 4)
  }

  // ---- as the eBPF map keys them ----

  /** struct udp_key: the family is 4 or 6; IPv4 uses the first word only. */
  datatype UdpKey = UdpKey(family: nat, saddr: seq<nat>, daddr: seq<nat>, sport: nat, dport: nat) {
    predicate Valid() {
      && (family == 4 || family == 6)
      && |saddr| == 4 && |daddr| == 4
      && (forall i :: 0 <= i < 4 ==> saddr[i] < WORD32 && daddr[i] < WORD32)
      && sport < WORD16 && dport < WORD16
      && (family == 4 ==> saddr[1..] == [0, 0, 0] && daddr[1..] == [0, 0, 0])
    }

    /** The words that carry the address. */
    function Words(ws: seq<nat>): seq<nat>
      requires |ws| == 4
    {
      if family == 6 then ws else ws[..1]
    }
  }

  function KeyIP(family: nat, ws: seq<nat>): IP
    requires |ws| == 4 && forall i :: 0 <= i < 4 ==> ws[i] < WORD32
  {
    if family == 6 then Unmap(V6(Bytes(ws))) else V4(Word4(ws[0]))
  }

  function Decimal(n: nat): string {
    Show(10, n)
  }

  function Joined(la: string, lp: nat, ra: string, rp: nat): string {
    la + ":" + Decimal(lp) + "|" + ra + ":" + Decimal(rp)
  }

  /** udpUdpKey.id */
  function Id(show: Writing, k: UdpKey): string
    requires k.Valid()
  {
    Joined(show(KeyIP(k.family, k.saddr)), k.sport, show(KeyIP(k.family, k.daddr)), k.dport)
  }

  function ShowOrInvalid(show: Writing, ip: Option<IP>): string {
    match ip
    case Some(a) => show(a)
    case None => "invalid IP"
  }

  /** connUDPKey on a scanned row; None for a row without a local address. */
  function ConnUDPKey(la: string, lp: nat, ra: string, rp: nat): Option<string> {
    if la == "" || la == "invalid IP" then None else Some(Joined(la, lp, ra, rp))
  }

  /** The key of the row that a line of /proc/net becomes. */
  function LineKey(show: Writing, local: string, remote: string): Option<string> {
    var (la, lp) := HexAddr(local);
    var (ra, rp) := HexAddr(remote);
    ConnUDPKey(ShowOrInvalid(show, la), lp, ShowOrInvalid(show, ra), rp)
  }

  /** Real addresses are never written like the zero address or like nothing. */
  ghost predicate Showable(show: Writing) {
    forall ip: IP :: show(ip) != "" && show(ip) != "invalid IP"
  }

  // ---- they meet ----

  lemma PowSixteen()
    ensures Pow(16, 4) == WORD16 && Pow(16, 8) == WORD32
  {
    assert Pow(16, 2) == 256;
    assert Pow(16, 4) == 65536;
    assert Pow(16, 6) == 16777216;
  }

  lemma WordRoundTrip(w: nat)
    requires w < WORD32
    ensures ReadWord(PrintWord(w)) == Some(w)
  {
    PowSixteen();
    PaddedRoundTrip(16, w, 8);
  }

  lemma {:induction false} WordsRoundTrip(ws: seq<nat>)
    requires forall i :: 0 <= i < |ws| ==> ws[i] < WORD32
    ensures ReadWords(PrintWords(ws), |ws|) == Some(ws)
  {
    if ws != [] {
      var n := |ws|;
      var s := PrintWords(ws);
      WordsRoundTrip(ws[..n - 1]);
      WordRoundTrip(ws[n - 1]);
      assert s[..8 * n - 8] == PrintWords(ws[..n - 1]) && s[8 * n - 8..] == PrintWord(ws[n - 1]);
      assert ws[..n - 1] + [ws[n - 1]] == ws;
    }
  }

  /** A longer number is no smaller. */
  lemma {:induction false} PrefixIsSmaller(s: string, k: nat)
    requires k <= |s| && Digits(16, s).Some?
    ensures Digits(16, s[..k]).Some? && Digits(16, s[..k]).value <= Digits(16, s).value
  {
    if k < |s| {
      assert s[..|s| - 1][..k] == s[..k];
      PrefixIsSmaller(s[..|s| - 1], k);
    } else {
      assert s[..k] == s;
    }
  }

  lemma PortRoundTrip(port: nat)
    requires port < WORD16
    ensures HexPort(Padded(16, port, 4)) == port
  {
    PowSixteen();
    PaddedRoundTrip(16, port, 4);
    var s := Padded(16, port, 4);
    forall k | 0 <= k <= |s|
      ensures !TooLarge(s[..k])
    {
      PrefixIsSmaller(s, k);
    }
  }

  lemma DigitHasNoColon(d: nat)
    requires d < 16
    ensures Digit(d) != ':'
  {
  }

  lemma {:induction false} PrintedHasNoColon(v: nat, n: nat)
    ensures ':' !in Padded(16, v, n)
  {
    if n > 0 {
      PrintedHasNoColon(v / 16, n - 1);
      DigitHasNoColon(v % 16);
    }
  }

  lemma {:induction false} WordsHaveNoColon(ws: seq<nat>)
    ensures ':' !in PrintWords(ws)
  {
    if ws != [] {
      WordsHaveNoColon(ws[..|ws| - 1]);
      PrintedHasNoColon(ws[|ws| - 1], 8);
    }
  }

  lemma SplitString(head: string, tail: string)
    ensures var s := head + ":" + tail; s[|head|] == ':' && s[..|head|] == head && s[|head| + 1..] == tail
  {
  }

  /** What the parser makes of a printed end is the end it was printed from. */
  lemma EndRoundTrip(k: UdpKey, ws: seq<nat>, port: nat)
    requires k.Valid() && (ws == k.saddr || ws == k.daddr) && port < WORD16
    ensures HexAddr(PrintEnd(k.Words(ws), port)) == (Some(KeyIP(k.family, ws)), port)
  {
    var words := k.Words(ws);
    var head, tail := PrintWords(words), Padded(16, port, 4);
    var s := PrintEnd(words, port);
    WordsHaveNoColon(words);
    SplitString(head, tail);
    FirstIndex(s, |head|, ':');
    PortRoundTrip(port);
    WordsRoundTrip(words);
    if k.family == 4 {
      assert words[..0] == [];
      assert PrintWords(words) == PrintWord(ws[0]);
      WordRoundTrip(ws[0]);
    }
  }

  // ---- whatever the line holds ----

  /** A port is the number its digits make; 65535 as soon as some of them make
      more; 0 if there are none or something else stands among them before that. */
  lemma PortReads(s: string, k: nat)
    requires k <= |s| && Digits(16, s[..k]).Some?
    ensures Digits(16, s[..k]).value >= 65536 ==> HexPort(s) == 65535
    ensures Digits(16, s[..k]).value < 65536 && k == |s| ==>
      HexPort(s) == if s == "" then 0 else Digits(16, s[..k]).value
    ensures Digits(16, s[..k]).value < 65536 && k < |s| && DigitValue(s[k]).None? ==> HexPort(s) == 0
  {
    assert s[..|s|] == s;
    if Digits(16, s[..k]).value >= 65536 {
      assert TooLarge(s[..k]);
    } else if k == |s| || DigitValue(s[k]).None? {
      forall j | 0 <= j <= |s|
        ensures !TooLarge(s[..j])
      {
        if j <= k {
          assert s[..k][..j] == s[..j];
          PrefixIsSmaller(s[..k], j);
        } else {
          ForeignSpoils(16, s[..j], k);
        }
      }
      if k < |s| {
        ForeignSpoils(16, s, k);
      }
    }
  }

  /** Only a text of 8 or 32 digits with a colon after it holds an address; what
      follows the colon is the port even where the address cannot be read. */
  lemma EndReads(a: string, p: string)
    requires ':' !in a
    ensures HexAddr(a) == (None, 0)
    ensures HexAddr(a + ":" + p) == (HexIP(a), HexPort(p))
    ensures |a| != 8 && |a| != 32 ==> HexIP(a) == None
    ensures (exists i :: 0 <= i < |a| && DigitValue(a[i]).None?) ==> HexIP(a) == None
  {
    SplitString(a, p);
    FirstIndex(a + ":" + p, |a|, ':');
    if i :| 0 <= i < |a| && DigitValue(a[i]).None? {
      if |a| == 8 {
        ForeignSpoils(16, a, i);
      } else if |a| == 32 {
        ForeignWord(a, 4, i);
      }
    }
  }

  lemma {:induction false} ForeignWord(s: string, n: nat, i: nat)
    requires |s| == 8 * n && i < |s| && DigitValue(s[i]).None?
    ensures ReadWords(s, n) == None
  {
    var front, last := s[..8 * n - 8], s[8 * n - 8..];
    if i < 8 * n - 8 {
      ForeignWord(front, n - 1, i);
    } else {
      assert last[i - (8 * n - 8)] == s[i];
      ForeignSpoils(16, last, i - (8 * n - 8));
    }
  }

  /** A row whose local end cannot be read has no key; one whose remote end cannot
      has that of no real socket. */
  lemma UnreadableHasNoKey(show: Writing, local: string, remote: string)
    requires Faithful(show) && Showable(show)
    ensures HexAddr(local).0 == None ==> LineKey(show, local, remote) == None
    ensures HexAddr(local).0 != None ==> LineKey(show, local, remote).Some?
    ensures HexAddr(remote).0 == None ==>
      forall k: UdpKey :: k.Valid() ==> LineKey(show, local, remote) != Some(Id(show, k))
  {
    if HexAddr(local).0 != None && HexAddr(remote).0 == None {
      var (la, lp) := HexAddr(local);
      forall k: UdpKey | k.Valid()
        ensures LineKey(show, local, remote) != Some(Id(show, k))
      {
        if LineKey(show, local, remote) == Some(Id(show, k)) {
          JoinedNamesEnds(show(la.value), lp, "invalid IP", HexAddr(remote).1,
                          show(KeyIP(k.family, k.saddr)), k.sport, show(KeyIP(k.family, k.daddr)), k.dport);
        }
      }
    }
  }

  /** For all words and ports: parsing what the kernel prints for a socket and
      keying the row gives the key under which its bytes were counted, for
      IPv4, IPv6 and IPv4-mapped addresses alike. */
  lemma KeysMeet(show: Writing, k: UdpKey)
    requires k.Valid() && Showable(show)
    ensures LineKey(show, PrintEnd(k.Words(k.saddr), k.sport), PrintEnd(k.Words(k.daddr), k.dport)) == Some(Id(show, k))
  {
    EndRoundTrip(k, k.saddr, k.sport);
    EndRoundTrip(k, k.daddr, k.dport);
  }

  // ---- and only they ----

  /** Addresses are written differently, and without the separator. */
  ghost predicate Faithful(show: Writing) {
    && (forall a: IP, b: IP :: show(a) == show(b) ==> a == b)
    && (forall a: IP :: '|' !in show(a))
  }

  lemma DecimalIsPlain(n: nat)
    ensures ':' !in Decimal(n) && '|' !in Decimal(n)
  {
    ShowIsDigits(10, n);
  }

  /** A key names both ends and nothing else. */
  lemma JoinedNamesEnds(la: string, lp: nat, ra: string, rp: nat, la': string, lp': nat, ra': string, rp': nat)
    requires Joined(la, lp, ra, rp) == Joined(la', lp', ra', rp')
    requires '|' !in la && '|' !in la'
    ensures la == la' && lp == lp' && ra == ra' && rp == rp'
  {
    var l, r := la + ":" + Decimal(lp), ra + ":" + Decimal(rp);
    var l', r' := la' + ":" + Decimal(lp'), ra' + ":" + Decimal(rp');
    assert l + "|" + r == Joined(la, lp, ra, rp) && l' + "|" + r' == Joined(la', lp', ra', rp');
    DecimalIsPlain(lp);
    DecimalIsPlain(lp');
    SplitAtFirst(l, r, l', r', '|');
    EndNamesItself(la, lp, la', lp');
    EndNamesItself(ra, rp, ra', rp');
  }

  lemma EndNamesItself(a: string, p: nat, a': string, p': nat)
    requires a + ":" + Decimal(p) == a' + ":" + Decimal(p')
    ensures a == a' && p == p'
  {
    DecimalIsPlain(p);
    DecimalIsPlain(p');
    SplitAtLast(a, Decimal(p), a', Decimal(p'), ':');
    ShowInjective(10, p, p');
  }

  function Value4(b0: nat, b1: nat, b2: nat, b3: nat): nat {
    b0 + 256 * (b1 + 256 * (b2 + 256 * b3))
  }

  lemma Word4Value(w: nat)
    requires w < WORD32
    ensures var b := Word4(w); w == Value4(b[0], b[1], b[2], b[3])
  {
  }

  lemma Word4Unique(b0: nat, b1: nat, b2: nat, b3: nat)
    requires b0 < 256 && b1 < 256 && b2 < 256 && b3 < 256
    ensures Value4(b0, b1, b2, b3) < WORD32 && Word4(Value4(b0, b1, b2, b3)) == [b0, b1, b2, b3]
  {
    var w := Value4(b0, b1, b2, b3);
    assert w % 256 == b0 && w / 256 == b1 + 256 * (b2 + 256 * b3);
    assert w / 256 % 256 == b1 && w / 256 / 256 == b2 + 256 * b3;
    assert w / 256 / 256 % 256 == b2 && w / 256 / 256 / 256 == b3;
  }

  lemma OneMoreDigit(s: string, c: char)
    ensures Digits(16, s + [c]) ==
      match (Digits(16, s), DigitValue(c))
      case (Some(v), Some(d)) => if d < 16 then Some(16 * v + d) else None
      case _ => None
  {
    assert (s + [c])[..|s|] == s;
  }

  lemma TwoMoreDigits(front: string, high: char, low: char, v: nat, h: nat, l: nat)
    requires Digits(16, front) == Some(v) && DigitValue(high) == Some(h) && DigitValue(low) == Some(l)
    requires h < 16 && l < 16
    ensures Digits(16, front + [high, low]) == Some(256 * v + (16 * h + l))
  {
    OneMoreDigit(front, high);
    OneMoreDigit(front + [high], low);
    assert front + [high] + [low] == front + [high, low];
  }

  lemma OneMorePair(front: string, p: string, v: nat, d: nat)
    requires |p| == 2 && Digits(16, front) == Some(v) && Digits(16, p) == Some(d)
    ensures Digits(16, front + p) == Some(256 * v + d)
  {
    assert p[..1] == [p[0]] && [p[0]][..0] == "";
    var h, l := DigitValue(p[0]).value, DigitValue(p[1]).value;
    assert p == "" + [p[0], p[1]];
    TwoMoreDigits("", p[0], p[1], 0, h, l);
    TwoMoreDigits(front, p[0], p[1], v, h, l);
    assert front + [p[0], p[1]] == front + p;
  }

  /** The bytes of an IPv4 address are the pairs of its digits, the last pair
      first: "0100007F" is 127.0.0.1. */
  lemma PairsBackwards(p: seq<string>, b: seq<Byte>)
    requires |p| == |b| == 4 && forall k :: 0 <= k < 4 ==> |p[k]| == 2 && Digits(16, p[k]) == Some(b[k])
    ensures HexIP(p[0] + p[1] + p[2] + p[3]) == Some(V4([b[3], b[2], b[1], b[0]]))
  {
    OneMorePair(p[0], p[1], b[0], b[1]);
    OneMorePair(p[0] + p[1], p[2], 256 * (b[0] as nat) + b[1], b[2]);
    OneMorePair(p[0] + p[1] + p[2], p[3], 256 * (256 * (b[0] as nat) + b[1]) + b[2], b[3]);
    Word4Unique(b[3], b[2], b[1], b[0]);
  }

  lemma Word4Injective(v: nat, w: nat)
    requires v < WORD32 && w < WORD32 && Word4(v) == Word4(w)
    ensures v == w
  {
    Word4Value(v);
    Word4Value(w);
  }

  lemma {:induction false} BytesInjective(v: seq<nat>, w: seq<nat>)
    requires |v| == |w|
    requires forall i :: 0 <= i < |v| ==> v[i] < WORD32 && w[i] < WORD32
    requires Bytes(v) == Bytes(w)
    ensures v == w
  {
    if v != [] {
      var n := |v| - 1;
      assert Bytes(v)[..4 * n] == Bytes(v[..n]) && Bytes(w)[..4 * n] == Bytes(w[..n]);
      assert Bytes(v)[4 * n..] == Word4(v[n]) && Bytes(w)[4 * n..] == Word4(w[n]);
      BytesInjective(v[..n], w[..n]);
      Word4Injective(v[n], w[n]);
      assert v == v[..n] + [v[n]] && w == w[..n] + [w[n]];
    }
  }

  lemma UnmapInjective(a: seq<Byte>, b: seq<Byte>)
    requires |a| == |b| == 16 && Unmap(V6(a)) == Unmap(V6(b))
    ensures a == b
  {
    if Is4In6(V6(a)) {
      assert a == a[..12] + a[12..] && b == b[..12] + b[12..];
    }
  }

  /** Two kernel keys share a rendering only if they are the same key, or one
      is IPv4 and the other IPv4-mapped at both ends. */
  lemma IdInjective(show: Writing, k: UdpKey, m: UdpKey)
    requires k.Valid() && m.Valid() && Faithful(show) && Id(show, k) == Id(show, m)
    ensures k == m || (k.family != m.family &&
      var six := if k.family == 6 then k else m; Is4In6(V6(Bytes(six.saddr))) && Is4In6(V6(Bytes(six.daddr))))
  {
    JoinedNamesEnds(show(KeyIP(k.family, k.saddr)), k.sport, show(KeyIP(k.family, k.daddr)), k.dport,
                    show(KeyIP(m.family, m.saddr)), m.sport, show(KeyIP(m.family, m.daddr)), m.dport);
    if k.family == m.family == 6 {
      UnmapInjective(Bytes(k.saddr), Bytes(m.saddr));
      UnmapInjective(Bytes(k.daddr), Bytes(m.daddr));
      BytesInjective(k.saddr, m.saddr);
      BytesInjective(k.daddr, m.daddr);
    } else if k.family == m.family == 4 {
      Word4Injective(k.saddr[0], m.saddr[0]);
      Word4Injective(k.daddr[0], m.daddr[0]);
      assert k.saddr == [k.saddr[0]] + k.saddr[1..] && m.saddr == [m.saddr[0]] + m.saddr[1..];
      assert k.daddr == [k.daddr[0]] + k.daddr[1..] && m.daddr == [m.daddr[0]] + m.daddr[1..];
    }
  }

  /** The IPv6 socket between the IPv4-mapped forms of the same ends. */
  function MappedForm(k: UdpKey): (m: UdpKey)
    requires k.Valid() && k.family == 4
    ensures m.Valid() && m.family == 6
  {
    UdpKey(6, [0, 0, 0xffff_0000, k.saddr[0]], [0, 0, 0xffff_0000, k.daddr[0]], k.sport, k.dport)
  }

  lemma MappedEnd(w: nat)
    requires w < WORD32
    ensures Unmap(V6(Bytes([0, 0, 0xffff_0000, w]))) == V4(Word4(w))
  {
    BytesAppend([0, 0, 0xffff_0000], w);
    assert [0, 0, 0xffff_0000] + [w] == [0, 0, 0xffff_0000, w];
    MappedPrefix();
    var b := Bytes([0, 0, 0xffff_0000, w]);
    assert b[..12] == Bytes([0, 0, 0xffff_0000]) && b[12..] == Word4(w);
  }

  lemma PrefixWords()
    ensures Word4(0) == [0, 0, 0, 0] && Word4(0xffff_0000) == [0, 0, 255, 255]
  {
  }

  lemma MappedPrefix()
    ensures Bytes([0, 0, 0xffff_0000]) == [0, 0, 0, 0, 0, 0, 0, 0, 0, 0, 255, 255]
  {
    BytesAppend([], 0);
    BytesAppend([0], 0);
    BytesAppend([0, 0], 0xffff_0000);
    PrefixWords();
    assert [] + [0] == [0] && [0] + [0] == [0, 0] && [0, 0] + [0xffff_0000] == [0, 0, 0xffff_0000];
  }

  /** Two kernel keys share a rendering exactly when they are the same key or
      one is the IPv4-mapped form of the other. */
  lemma IdExactly(show: Writing, k: UdpKey, m: UdpKey)
    requires k.Valid() && m.Valid() && Faithful(show)
    ensures Id(show, k) == Id(show, m) <==>
      k == m || (k.family == 4 && m == MappedForm(k)) || (m.family == 4 && k == MappedForm(m))
  {
    if k.family == 4 {
      MappedMeets(show, k, m);
    }
    if m.family == 4 {
      MappedMeets(show, m, k);
    }
    if Id(show, k) == Id(show, m) {
      IdInjective(show, k, m);
    }
  }

  lemma MappedMeets(show: Writing, k: UdpKey, m: UdpKey)
    requires k.Valid() && k.family == 4 && m.Valid() && Faithful(show)
    ensures Id(show, MappedForm(k)) == Id(show, k)
    ensures m.family == 6 && Id(show, k) == Id(show, m) ==> m == MappedForm(k)
  {
    MappedEnd(k.saddr[0]);
    MappedEnd(k.daddr[0]);
    if m.family == 6 && Id(show, k) == Id(show, m) {
      IdInjective(show, MappedForm(k), m);
    }
  }
}
