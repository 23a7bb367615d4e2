/** IPv4 addresses as text: net.IP.String and net.ParseIP followed by To4, as Go's standard
    library defines them. An address has one printed text, the dotted quad, and further
    spellings: IPv4-mapped IPv6 texts (section 2.5.5.2 of RFC 4291) in any of their forms. */
module AddressText {
  import opened Options
  import opened Bytes
  import opened Ipv4
  import opened Decimals

  // ----- Printing

  function Print(ip: Ip): string {
    Decimal(ip[0]) + ("." + (Decimal(ip[1]) + ("." + (Decimal(ip[2]) + ("." + Decimal(ip[3]))))))
  }

  // ----- Dotted quads

  function Octet(s: string): Option<Byte> {
    if 1 <= |s| <= 3 && Digits(s) && (|s| == 1 || s[0] != '0') && ValueOf(s) < 256 then Some(ValueOf(s)) else None
  }

  /** Up to the first c, which is left out, and what follows it. */
  function Cut(s: string, c: char): Option<(string, string)> {
    if s == "" then None
    else if s[0] == c then Some(("", s[1..]))
    else var r := Cut(s[1..], c); if r.None? then None else Some(([s[0]] + r.value.0, r.value.1))
  }

  /** more + 1 octets separated by dots. */
  function Octets(s: string, more: nat): (r: Option<seq<Byte>>)
    ensures r.Some? ==> |r.value| == more + 1
    decreases more
  {
    if more == 0 then var o := Octet(s); if o.None? then None else Some([o.value])
    else
      var cut := Cut(s, '.');
      if cut.None? then None
      else
        var o, rest := Octet(cut.value.0), Octets(cut.value.1, more - 1);
        if o.None? || rest.None? then None else Some([o.value] + rest.value)
  }

  function ParseQuad(s: string): Option<Ip> {
    var r := Octets(s, 3);
    if r.None? then None else Some(r.value)
  }

  // ----- IPv6 texts

  const GROUPS := 8
  type Group = g: int | 0 <= g < 0x1_0000
  type Hex = d: int | 0 <= d < 16
  type Address6 = s: seq<Group> | |s| == GROUPS witness [0, 0, 0, 0, 0, 0, 0, 0]

  function Pair(high: Byte, low: Byte): Group { high as int * 256 + low as int }

  predicate IsHex(c: char) { '0' <= c <= '9' || 'a' <= c <= 'f' || 'A' <= c <= 'F' }

  function HexDigit(c: char): (d: Hex)
    requires IsHex(c)
    ensures c == "0123456789abcdef"[d] || c == "0123456789ABCDEF"[d]
  {
    if c <= '9' then c as int - '0' as int
    else if c <= 'F' then c as int - 'A' as int + 10
    else c as int - 'a' as int + 10
  }

  function HexRun(s: string): (n: nat)
    ensures n <= |s| && forall i | 0 <= i < n :: IsHex(s[i])
  {
    if s == "" || !IsHex(s[0]) then 0 else 1 + HexRun(s[1..])
  }

  function HexValue(s: string): (v: nat)
    requires forall i | 0 <= i < |s| :: IsHex(s[i])
    ensures |s| == 0 ==> v == 0
    ensures (|s| <= 1 ==> v < 0x10) && (|s| <= 2 ==> v < 0x100)
    ensures (|s| <= 3 ==> v < 0x1000) && (|s| <= 4 ==> v < 0x1_0000)
  {
    if s == "" then 0 else HexValue(s[..|s| - 1]) * 16 + HexDigit(s[|s| - 1])
  }

  /** Zero groups at the ellipsis make up the eight, and there must be at least one. */
  function Expand(groups: seq<Group>, ellipsis: Option<nat>): Option<Address6>
    requires |groups| <= GROUPS && (ellipsis.Some? ==> ellipsis.value <= |groups|)
  {
    if |groups| == GROUPS then if ellipsis.None? then Some(groups) else None
    else if ellipsis.None? then None
    else Some(groups[..ellipsis.value] + seq(GROUPS - |groups|, _ => 0) + groups[ellipsis.value..])
  }

  /** Hexadecimal groups separated by colons, a dotted quad in place of the last two. */
  function Groups(s: string, groups: seq<Group>, ellipsis: Option<nat>): Option<Address6>
    requires |groups| <= GROUPS && (ellipsis.Some? ==> ellipsis.value <= |groups|)
    decreases |s|
  {
    var n := HexRun(s);
    if |groups| == GROUPS || n == 0 || n > 4 then None
    else if n < |s| && s[n] == '.' then
      var quad := ParseQuad(s);
      if quad.None? || |groups| + 2 > GROUPS || (ellipsis.None? && |groups| + 2 != GROUPS) then None
      else Expand(groups + [Pair(quad.value[0], quad.value[1]), Pair(quad.value[2], quad.value[3])], ellipsis)
    else
      var more, rest := groups + [HexValue(s[..n])], s[n..];
      if rest == "" then Expand(more, ellipsis)
      else if rest[0] != ':' || |rest| == 1 then None
      else if rest[1] != ':' then Groups(rest[1..], more, ellipsis)
      else if ellipsis.Some? then None
      else if |rest| == 2 then Expand(more, Some(|more|))
      else Groups(rest[2..], more, Some(|more|))
  }

  function ParseV6(s: string): Option<Address6> {
    if "::" <= s then if |s| == 2 then Expand([], Some(0)) else Groups(s[2..], [], Some(0))
    else Groups(s, [], None)
  }

  /** To4 of an IPv6 address: the last four bytes of an IPv4-mapped one. */
  function Unmapped(groups: Address6): Option<Ip> {
    if groups[..6] == [0, 0, 0, 0, 0, 0xffff] then
      Some([groups[6] / 256, groups[6] % 256, groups[7] / 256, groups[7] % 256])
    else None
  }

  // ----- Either

  /** The first dot or colon decides how the text is read. */
  predicate LooksLikeV6(s: string) {
    s != "" && s[0] != '.' && (s[0] == ':' || LooksLikeV6(s[1..]))
  }

  function Parse(s: string): Option<Ip> {
    if LooksLikeV6(s) then
      var groups := ParseV6(s);
      if groups.None? then None else Unmapped(groups.value)
    else ParseQuad(s)
  }

  /** The text is the one its address prints as. */
  predicate Printed(s: string) { Parse(s).Some? && Print(Parse(s).value) == s }

  // ----- Printed texts read back

  lemma OctetReads(b: Byte)
    ensures Octet(Decimal(b)) == Some(b)
  {
    DecimalReads(b);
    DecimalIsShort(b);
  }

  lemma {:induction false} CutReads(a: string, c: char, b: string)
    requires c !in a
    ensures Cut(a + ([c] + b), c) == Some((a, b))
  {
    var s := a + ([c] + b);
    if a == "" {
      assert s == [c] + b && s[1..] == b;
    } else {
      assert s[1..] == a[1..] + ([c] + b);
      CutReads(a[1..], c, b);
      assert a == [a[0]] + a[1..];
    }
  }

  lemma OctetsRead(b: Byte, rest: string, more: nat)
    ensures Octets(Decimal(b) + ("." + rest), more + 1)
         == if Octets(rest, more).None? then None else Some([b] + Octets(rest, more).value)
  {
    hide Decimal, Octet, Cut;
    OctetReads(b);
    CutReads(Decimal(b), '.', rest);
  }

  lemma QuadReads(ip: Ip)
    ensures ParseQuad(Print(ip)) == Some(ip)
  {
    hide Decimal, Octet, Cut;
    var last := Decimal(ip[3]);
    OctetReads(ip[3]);
    OctetsRead(ip[2], last, 0);
    OctetsRead(ip[1], Decimal(ip[2]) + ("." + last), 1);
    OctetsRead(ip[0], Decimal(ip[1]) + ("." + (Decimal(ip[2]) + ("." + last))), 2);
    assert [ip[0]] + ([ip[1]] + ([ip[2]] + [ip[3]])) == ip;
  }

  lemma {:induction false} DigitsFirst(a: string, b: string)
    requires Digits(a)
    ensures !LooksLikeV6(a + ("." + b))
  {
    var s := a + ("." + b);
    if a == "" {
      assert s[0] == '.';
    } else {
      assert s[1..] == a[1..] + ("." + b);
      DigitsFirst(a[1..], b);
    }
  }

  /** Every address reads back from its printed text. */
  lemma PrintReads(ip: Ip)
    ensures Parse(Print(ip)) == Some(ip)
  {
    DigitsFirst(Decimal(ip[0]), Decimal(ip[1]) + ("." + (Decimal(ip[2]) + ("." + Decimal(ip[3])))));
    QuadReads(ip);
  }

  /** So different addresses print differently, and what is printed is its own spelling. */
  lemma PrintIsInjective(a: Ip, b: Ip)
    ensures Print(a) == Print(b) <==> a == b
    ensures Printed(Print(a))
  {
    PrintReads(a);
    PrintReads(b);
  }

  // ----- Dotted quads have one spelling

  lemma OctetExactly(s: string, b: Byte)
    ensures Octet(s) == Some(b) <==> s == Decimal(b)
  {
    OctetReads(b);
    hide Decimal;
    if Octet(s) == Some(b) { DecimalIsOnly(s); }
  }

  lemma {:induction false} CutSplits(s: string, c: char)
    ensures var r := Cut(s, c); r.Some? ==> s == r.value.0 + ([c] + r.value.1)
  {
    if s == "" {
    } else if s[0] == c {
      assert s == "" + ([c] + s[1..]);
    } else {
      CutSplits(s[1..], c);
      assert s == [s[0]] + s[1..];
    }
  }

  lemma OctetsSplit(s: string, more: nat)
    ensures var r := Octets(s, more + 1);
      r.Some? ==> exists rest :: s == Decimal(r.value[0]) + ("." + rest) && Octets(rest, more) == Some(r.value[1..])
  {
    hide Decimal, Octet, Cut;
    var r := Octets(s, more + 1);
    if r.Some? {
      var cut := Cut(s, '.').value;
      CutSplits(s, '.');
      OctetExactly(cut.0, r.value[0]);
      assert r.value[1..] == Octets(cut.1, more).value;
    }
  }

  lemma QuadExactly(s: string, ip: Ip)
    ensures ParseQuad(s) == Some(ip) <==> s == Print(ip)
  {
    hide Decimal, Octet;
    QuadReads(ip);
    if ParseQuad(s) == Some(ip) {
      hide Octets;
      OctetsSplit(s, 2);
      var a :| s == Decimal(ip[0]) + ("." + a) && Octets(a, 2) == Some(ip[1..]);
      OctetsSplit(a, 1);
      var b :| a == Decimal(ip[1]) + ("." + b) && Octets(b, 1) == Some(ip[1..][1..]);
      OctetsSplit(b, 0);
      var c :| b == Decimal(ip[2]) + ("." + c) && Octets(c, 0) == Some(ip[1..][1..][1..]);
      LastOctet(c, ip[3]);
    }
  }

  lemma LastOctet(c: string, b: Byte)
    requires Octets(c, 0) == Some([b])
    ensures c == Decimal(b)
  {
    OctetExactly(c, b);
  }

  lemma {:induction false} NoColon(s: string)
    ensures LooksLikeV6(s) ==> ':' in s
  {
    if s == "" {
    } else {
      NoColon(s[1..]);
    }
  }

  lemma PrintHasNoColon(ip: Ip)
    ensures ':' !in Print(ip)
  {
    hide Decimal;
    assert forall i | 0 <= i < 4 :: ':' !in Decimal(ip[i]);
  }

  /** So a text that reads as an address is its printed one exactly when it has no colon. */
  lemma PrintedExactly(s: string)
    requires Parse(s).Some?
    ensures Printed(s) <==> ':' !in s
  {
    hide Print, ParseV6, ParseQuad, Unmapped;
    var ip := Parse(s).value;
    PrintHasNoColon(ip);
    NoColon(s);
    QuadExactly(s, ip);
  }

  /** Every address has spellings other than the printed one, such as these; without the ffff the text
      is no IPv4 address. */
  lemma MappedReads(ip: Ip)
    ensures Parse("::ffff:" + Print(ip)) == Some(ip) && !Printed("::ffff:" + Print(ip))
    ensures Parse("::" + Print(ip)) == None
  {
    hide Groups, Octets, Decimal, ParseQuad;
    var q := Print(ip);
    assert q[0] == Decimal(ip[0])[0];
    hide Print;
    assert ("::ffff:" + q)[2..] == "ffff:" + q;
    PrefixReads(q);
    QuadGroups(ip, [0xffff]);
    assert [ip[0], ip[1], ip[2], ip[3]] == ip;
    UnmappedFails(ip);
  }

  lemma UnmappedFails(ip: Ip)
    ensures Parse("::" + Print(ip)) == None
  {
    hide Groups, Print;
    var q := Print(ip);
    assert ("::" + q)[2..] == q;
    QuadGroups(ip, []);
    assert (seq(6, _ => 0) + [] + [Pair(ip[0], ip[1]), Pair(ip[2], ip[3])])[..6][5] == 0;
    assert q != "" by { QuadReads(ip); }
  }

  /** The last two groups may be hexadecimal as well. */
  lemma HexMappedReads(a: string, b: string)
    requires 1 <= |a| <= 4 && 1 <= |b| <= 4 && AllHex(a) && AllHex(b)
    ensures var v, w := HexValue(a), HexValue(b);
      Parse("::ffff:" + (a + (":" + b))) == Some([v / 256, v % 256, w / 256, w % 256])
  {
    hide Groups, HexValue;
    var q := a + (":" + b);
    assert q[0] == a[0];
    assert ("::ffff:" + q)[2..] == "ffff:" + q;
    PrefixReads(q);
    HexGroup(a, ":" + b, [0xffff]);
    assert (":" + b)[1..] == b;
    HexGroup(b, "", [0xffff] + [HexValue(a)]);
    assert b + "" == b;
  }

  lemma HexGroup(a: string, rest: string, groups: seq<Group>)
    requires 1 <= |a| <= 4 && AllHex(a) && |groups| < GROUPS - 1
    requires rest == "" || (|rest| > 1 && rest[0] == ':' && rest[1] != ':')
    ensures Groups(a + rest, groups, Some(0)) ==
      if rest == "" then Expand(groups + [HexValue(a)], Some(0)) else Groups(rest[1..], groups + [HexValue(a)], Some(0))
  {
    hide HexRun, HexValue, Expand, ParseQuad;
    HexRunIs(a, rest);
    assert (a + rest)[..|a|] == a && (a + rest)[|a|..] == rest;
    if rest != "" { assert (a + rest)[|a|] == ':'; }
  }

  predicate AllHex(s: string) { forall i | 0 <= i < |s| :: IsHex(s[i]) }

  lemma {:induction false} HexRunIs(a: string, b: string)
    requires AllHex(a) && (b == "" || !IsHex(b[0]))
    ensures HexRun(a + b) == |a|
  {
    var s := a + b;
    if a == "" {
      assert s == b;
    } else {
      assert s[1..] == a[1..] + b;
      HexRunIs(a[1..], b);
    }
  }

  lemma PrefixReads(q: string)
    requires q != "" && q[0] != ':'
    ensures Groups("ffff:" + q, [], Some(0)) == Groups(q, [0xffff], Some(0))
  {
    hide Groups, HexValue;
    PrefixValue();
    assert "ffff:" + q == "ffff" + (":" + q) && (":" + q)[1..] == q;
    HexGroup("ffff", ":" + q, []);
    assert [] + [0xffff] == [0xffff];
  }

  lemma PrefixValue()
    ensures HexValue("ffff") == 0xffff
  {
    assert "ffff"[..3] == "fff" && "fff"[..2] == "ff" && "ff"[..1] == "f" && "f"[..0] == "";
    assert HexValue("ff") == 0xff;
  }

  lemma QuadGroups(ip: Ip, groups: seq<Group>)
    requires |groups| < 6
    ensures Groups(Print(ip), groups, Some(0))
         == Some(seq(6 - |groups|, _ => 0) + groups + [Pair(ip[0], ip[1]), Pair(ip[2], ip[3])])
  {
    hide Octets, HexRun, Expand, ParseQuad, Groups, Print;
    PrintRun(ip);
    QuadReads(ip);
    QuadLast(Print(ip), ip, groups);
    ZerosFirst(groups, [Pair(ip[0], ip[1]), Pair(ip[2], ip[3])]);
  }

  lemma PrintRun(ip: Ip)
    ensures var s := Print(ip); 1 <= HexRun(s) <= 3 && HexRun(s) < |s| && s[HexRun(s)] == '.'
  {
    hide Decimal, HexRun;
    var a, b := Decimal(ip[0]), Decimal(ip[1]) + ("." + (Decimal(ip[2]) + ("." + Decimal(ip[3]))));
    DecimalIsShort(ip[0]);
    HexRunIs(a, "." + b);
    assert Print(ip) == a + ("." + b);
  }

  lemma QuadLast(s: string, ip: Ip, groups: seq<Group>)
    requires 1 <= HexRun(s) <= 4 && HexRun(s) < |s| && s[HexRun(s)] == '.' && ParseQuad(s) == Some(ip) && |groups| < 6
    ensures Groups(s, groups, Some(0)) == Expand(groups + [Pair(ip[0], ip[1]), Pair(ip[2], ip[3])], Some(0))
  {
    hide Expand, ParseQuad, HexRun;
  }

  lemma ZerosFirst(groups: seq<Group>, last: seq<Group>)
    requires |groups| + |last| < GROUPS
    ensures Expand(groups + last, Some(0)) == Some(seq(GROUPS - |groups| - |last|, _ => 0) + groups + last)
  {
    var all := groups + last;
    assert all[..0] + seq(GROUPS - |all|, _ => 0) + all[0..] == seq(GROUPS - |all|, _ => 0) + groups + last;
  }
}
