/**
 This module holds the textual renderings the scanner and the SMB client build
 their keys and URLs from: decimal numbers (as `std::to_string` prints them),
 dotted-quad IPv4 addresses (as `inet_ntoa` prints them), and the parsers that
 invert them, which show that the renderings lose no information.
 */
module Text {
  import opened Wrappers
  import opened Bytes

  predicate IsDigit(c: char) {
    '0' <= c <= '9'
  }

  predicate AllDigits(s: string) {
    forall i :: 0 <= i < |s| ==> IsDigit(s[i])
  }

  function DigitChar(d: nat): (c: char)
    requires d < 10
    ensures IsDigit(c)
  {
    (('0' as int) + d) as char
  }

  function DigitValue(c: char): (d: nat)
    requires IsDigit(c)
    ensures d < 10
  {
    (c as int) - ('0' as int)
  }

  /** Decimal rendering of a natural number, most significant digit first, no leading zeros. */
  function NatText(n: nat): (s: string)
    ensures 1 <= |s|
    ensures AllDigits(s)
    decreases n
  {
    if n < 10 then [DigitChar(n)] else NatText(n / 10) + [DigitChar(n % 10)]
  }

  /** The value of a string of decimal digits. */
  function DigitsValue(s: string): nat
    requires AllDigits(s)
    decreases |s|
  {
    if |s| == 0 then 0 else DigitsValue(s[..|s| - 1]) * 10 + DigitValue(s[|s| - 1])
  }

  lemma {:induction false} NatTextRoundTrip(n: nat)
    ensures DigitsValue(NatText(n)) == n
    decreases n
  {
    if n >= 10 {
      var s := NatText(n);
      assert s[..|s| - 1] == NatText(n / 10);
      NatTextRoundTrip(n / 10);
    }
  }

  /** Decimal rendering of an integer, with a leading '-' when negative. */
  function IntText(i: int): (s: string)
  {
    if i < 0 then "-" + NatText(-i) else NatText(i)
  }

  /** Reads back what `IntText` writes; `None` for anything else. */
  function ParseInt(s: string): Option<int>
  {
    if 2 <= |s| && s[0] == '-' && AllDigits(s[1..]) then Some(-(DigitsValue(s[1..]) as int))
    else if 1 <= |s| && AllDigits(s) then Some(DigitsValue(s))
    else None
  }

  lemma IntTextRoundTrip(i: int)
    ensures ParseInt(IntText(i)) == Some(i)
  {
    var s := IntText(i);
    if i < 0 {
      assert s[1..] == NatText(-i);
      NatTextRoundTrip(-i);
    } else {
      NatTextRoundTrip(i);
    }
  }

  /** Different integers never render to the same text. */
  lemma IntTextInjective(i: int, j: int)
    requires IntText(i) == IntText(j)
    ensures i == j
  {
    IntTextRoundTrip(i);
    IntTextRoundTrip(j);
  }

  /** Fields joined with a separator character between each neighbouring pair. */
  function Join(fields: seq<string>, sep: char): string
    requires 1 <= |fields|
    decreases |fields|
  {
    if |fields| == 1 then fields[0] else fields[0] + [sep] + Join(fields[1..], sep)
  }

  /** Cuts a string at every occurrence of the separator; always yields at least one field. */
  function Split(s: string, sep: char): (fields: seq<string>)
    ensures 1 <= |fields|
    decreases |s|
  {
    if |s| == 0 then [[]]
    else
      var rest := Split(s[1..], sep);
      if s[0] == sep then [[]] + rest else [[s[0]] + rest[0]] + rest[1..]
  }

  lemma {:induction false} SplitWithoutSeparator(a: string, sep: char)
    requires sep !in a
    ensures Split(a, sep) == [a]
    decreases |a|
  {
    if |a| > 0 {
      SplitWithoutSeparator(a[1..], sep);
      assert [a[0]] + a[1..] == a;
    }
  }

  lemma {:induction false} SplitAfterField(a: string, sep: char, b: string)
    requires sep !in a
    ensures Split(a + [sep] + b, sep) == [a] + Split(b, sep)
    decreases |a|
  {
    var s := a + [sep] + b;
    if |a| == 0 {
      assert s[1..] == b;
    } else {
      assert s[1..] == a[1..] + [sep] + b;
      SplitAfterField(a[1..], sep, b);
      assert [a[0]] + a[1..] == a;
    }
  }

  /** Splitting undoes joining, provided no field contains the separator. */
  lemma {:induction false} SplitJoin(fields: seq<string>, sep: char)
    requires 1 <= |fields|
    requires forall i :: 0 <= i < |fields| ==> sep !in fields[i]
    ensures Split(Join(fields, sep), sep) == fields
    decreases |fields|
  {
    if |fields| == 1 {
      SplitWithoutSeparator(fields[0], sep);
    } else {
      SplitJoin(fields[1..], sep);
      SplitAfterField(fields[0], sep, Join(fields[1..], sep));
      assert [fields[0]] + fields[1..] == fields;
    }
  }

  lemma DigitsHaveNoDot(s: string)
    requires AllDigits(s)
    ensures '.' !in s
  {
  }

  /** Dotted-decimal rendering of a 4-byte address, bytes in network order (what `inet_ntoa` prints). */
  function IpText(addr: seq<byte>): (s: string)
    requires |addr| == 4
  {
    Join([NatText(addr[0] as nat), NatText(addr[1] as nat), NatText(addr[2] as nat), NatText(addr[3] as nat)], '.')
  }

  function ParseOctet(s: string): Option<byte>
  {
    if 1 <= |s| && AllDigits(s) && DigitsValue(s) < 256 then Some(DigitsValue(s) as byte) else None
  }

  /** Reads a dotted-quad address back into its four bytes. */
  function ParseIp(s: string): Option<seq<byte>>
  {
    var f := Split(s, '.');
    if |f| != 4 then None
    else
      match (ParseOctet(f[0]), ParseOctet(f[1]), ParseOctet(f[2]), ParseOctet(f[3]))
      case (Some(a), Some(b), Some(c), Some(d)) => Some([a, b, c, d])
      case _ => None
  }

  lemma OctetRoundTrip(b: byte)
    ensures ParseOctet(NatText(b as nat)) == Some(b)
  {
    NatTextRoundTrip(b as nat);
  }

  lemma IpTextRoundTrip(addr: seq<byte>)
    requires |addr| == 4
    ensures ParseIp(IpText(addr)) == Some(addr)
  {
    var fields := [NatText(addr[0] as nat), NatText(addr[1] as nat), NatText(addr[2] as nat), NatText(addr[3] as nat)];
    forall i | 0 <= i < 4
      ensures '.' !in fields[i]
    {
      DigitsHaveNoDot(fields[i]);
    }
    SplitJoin(fields, '.');
    OctetRoundTrip(addr[0]);
    OctetRoundTrip(addr[1]);
    OctetRoundTrip(addr[2]);
    OctetRoundTrip(addr[3]);
    assert [addr[0], addr[1], addr[2], addr[3]] == addr;
  }

  /** Two sender addresses yield the same registry key only if they are the same address. */
  lemma IpTextInjective(a: seq<byte>, b: seq<byte>)
    requires |a| == 4 && |b| == 4
    requires IpText(a) == IpText(b)
    ensures a == b
  {
    IpTextRoundTrip(a);
    IpTextRoundTrip(b);
  }

  /** A rendered address is never the empty string. */
  lemma IpTextNonEmpty(addr: seq<byte>)
    requires |addr| == 4
    ensures |IpText(addr)| > 0
  {
  }
}
