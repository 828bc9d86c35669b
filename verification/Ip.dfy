/** IP addresses and their dotted-decimal text: the parts of Rust's
    `std::net::IpAddr` (`from_str` and `to_string`) the update client uses,
    restricted to IPv4. An octet is written as one to three ASCII digits,
    without a leading zero unless the octet is zero, and at most 255. */
module Ip {
  import opened Wrappers
  import opened Strings

  type Octet = n: nat | n < 256

  /** An IPv4 address a.b.c.d. */
  datatype IpAddr = V4(a: Octet, b: Octet, c: Octet, d: Octet)

  predicate IsDigit(c: char) {
    '0' <= c <= '9'
  }

  predicate AllDigits(s: string) {
    forall i :: 0 <= i < |s| ==> IsDigit(s[i])
  }

  function DigitValue(c: char): (d: nat)
    requires IsDigit(c)
    ensures d < 10
  {
    c as int - '0' as int
  }

  function DigitChar(d: nat): (c: char)
    requires d < 10
    ensures IsDigit(c) && DigitValue(c) == d
  {
    ('0' as int + d) as char
  }

  /** The number a string of decimal digits denotes, most significant
      digit first. */
  function DecimalValue(s: string): nat
    requires AllDigits(s)
  {
    if s == [] then 0 else 10 * DecimalValue(s[..|s| - 1]) + DigitValue(s[|s| - 1])
  }

  /** The shortest decimal numeral of n: digits only, and no leading zero
      unless n is zero. */
  function DecimalText(n: nat): (s: string)
    ensures |s| >= 1 && AllDigits(s)
    ensures s[0] == '0' ==> n == 0
    ensures DecimalValue(s) == n
  {
    if n < 10 then
      [DigitChar(n)]
    else
      var s := DecimalText(n / 10) + [DigitChar(n % 10)];
      assert s[..|s| - 1] == DecimalText(n / 10);
      s
  }

  /** One octet of a dotted-decimal address. */
  function ParseOctet(s: string): Option<Octet> {
    if 1 <= |s| <= 3 && AllDigits(s) && (|s| == 1 || s[0] != '0') && DecimalValue(s) < 256 then
      Some(DecimalValue(s))
    else
      None
  }

  /** The dotted-decimal text of an address (Rust's `IpAddr::to_string`). */
  function Text(ip: IpAddr): string {
    Join([DecimalText(ip.a), DecimalText(ip.b), DecimalText(ip.c), DecimalText(ip.d)], '.')
  }

  /** The address a text denotes, if any (Rust's `IpAddr::from_str`). */
  function Parse(s: string): Option<IpAddr> {
    var parts := Split(s, '.');
    if |parts| != 4 then None
    else
      match (ParseOctet(parts[0]), ParseOctet(parts[1]), ParseOctet(parts[2]), ParseOctet(parts[3]))
      case (Some(a), Some(b), Some(c), Some(d)) => Some(V4(a, b, c, d))
      case _ => None
  }

  /** An address's text, written out: the four numerals with dots between. */
  lemma TextSpelledOut(ip: IpAddr)
    ensures Text(ip) == DecimalText(ip.a) + "." + DecimalText(ip.b) + "." + DecimalText(ip.c) + "." + DecimalText(ip.d)
  {
    var parts := [DecimalText(ip.a), DecimalText(ip.b), DecimalText(ip.c), DecimalText(ip.d)];
    assert parts[1..][1..][1..] == [DecimalText(ip.d)];
    assert Join(parts[1..][1..], '.') == DecimalText(ip.c) + "." + DecimalText(ip.d);
    assert Join(parts[1..], '.') == DecimalText(ip.b) + "." + (DecimalText(ip.c) + "." + DecimalText(ip.d));
  }

  /** A numeral that starts with a non-zero digit denotes a positive number. */
  lemma {:induction false} DecimalValuePositive(s: string)
    requires |s| >= 1 && AllDigits(s) && s[0] != '0'
    ensures DecimalValue(s) >= 1
    decreases |s|
  {
    if |s| > 1 {
      DecimalValuePositive(s[..|s| - 1]);
    }
  }

  /** A numeral without a leading zero is the shortest numeral of its value. */
  lemma {:induction false} DecimalTextOfValue(s: string)
    requires |s| >= 1 && AllDigits(s) && (|s| == 1 || s[0] != '0')
    ensures DecimalText(DecimalValue(s)) == s
    decreases |s|
  {
    var v := DecimalValue(s);
    var last := s[|s| - 1];
    if |s| == 1 {
      assert DigitChar(DigitValue(last)) == last;
    } else {
      var p := s[..|s| - 1];
      DecimalValuePositive(p);
      assert v / 10 == DecimalValue(p) && v % 10 == DigitValue(last);
      DecimalTextOfValue(p);
      assert DigitChar(DigitValue(last)) == last;
      assert s == p + [last];
    }
  }

  lemma DecimalTextOfOctetIsShort(n: Octet)
    ensures |DecimalText(n)| <= 3
  {
    if n >= 10 {
      assert |DecimalText(n)| == |DecimalText(n / 10)| + 1;
      if n / 10 >= 10 {
        assert |DecimalText(n / 10)| == |DecimalText(n / 100)| + 1;
      }
    }
  }

  /** Printing an octet and parsing it back gives the octet. */
  lemma ParseOctetText(n: Octet)
    ensures ParseOctet(DecimalText(n)) == Some(n)
  {
    DecimalTextOfOctetIsShort(n);
  }

  /** An octet text that parses is the printed form of its value. */
  lemma TextOfParsedOctet(s: string)
    requires ParseOctet(s).Some?
    ensures DecimalText(ParseOctet(s).value) == s
  {
    DecimalTextOfValue(s);
  }

  lemma DecimalTextHasNoDot(n: nat)
    ensures '.' !in DecimalText(n)
  {
    var s := DecimalText(n);
    assert forall i :: 0 <= i < |s| ==> s[i] != '.' by {
      forall i | 0 <= i < |s| ensures s[i] != '.' { assert IsDigit(s[i]); }
    }
  }

  /** Parsing inverts printing: every address survives a round trip
      through its text. */
  lemma ParseText(ip: IpAddr)
    ensures Parse(Text(ip)) == Some(ip)
  {
    var parts := [DecimalText(ip.a), DecimalText(ip.b), DecimalText(ip.c), DecimalText(ip.d)];
    DecimalTextHasNoDot(ip.a);
    DecimalTextHasNoDot(ip.b);
    DecimalTextHasNoDot(ip.c);
    DecimalTextHasNoDot(ip.d);
    SplitJoin(parts, '.');
    ParseOctetText(ip.a);
    ParseOctetText(ip.b);
    ParseOctetText(ip.c);
    ParseOctetText(ip.d);
  }

  /** Printing inverts parsing: the only text that parses to an address is
      the address's own dotted-decimal text. */
  lemma TextOfParsed(s: string)
    requires Parse(s).Some?
    ensures Text(Parse(s).value) == s
  {
    var parts := Split(s, '.');
    TextOfParsedOctet(parts[0]);
    TextOfParsedOctet(parts[1]);
    TextOfParsedOctet(parts[2]);
    TextOfParsedOctet(parts[3]);
    JoinSplit(s, '.');
    assert parts == [parts[0], parts[1], parts[2], parts[3]];
  }

  /** Parse and Text are inverse: a text parses to ip exactly when it is
      ip's text. */
  lemma ParseIsInverseOfText(s: string, ip: IpAddr)
    ensures Parse(s) == Some(ip) <==> Text(ip) == s
  {
    ParseText(ip);
    if Parse(s).Some? {
      TextOfParsed(s);
    }
  }

  /** What Parse's result says about its input, stated without Parse:
      success yields the address whose text the input is, and failure means
      no address has that text. */
  lemma ParseMeaning(s: string)
    ensures Parse(s).Some? ==> Text(Parse(s).value) == s
    ensures Parse(s).None? ==> forall ip :: Text(ip) != s
  {
    if Parse(s).Some? {
      TextOfParsed(s);
    } else {
      forall ip ensures Text(ip) != s {
        ParseText(ip);
      }
    }
  }

  /** Distinct addresses have distinct texts. */
  lemma TextInjective(x: IpAddr, y: IpAddr)
    ensures Text(x) == Text(y) ==> x == y
  {
    ParseText(x);
    ParseText(y);
  }

  predicate IsDigitOrDot(c: char) {
    IsDigit(c) || c == '.'
  }

  lemma {:induction false} JoinedDigitsAlphabet(parts: seq<string>)
    requires |parts| >= 1
    requires forall k :: 0 <= k < |parts| ==> AllDigits(parts[k])
    ensures forall i :: 0 <= i < |Join(parts, '.')| ==> IsDigitOrDot(Join(parts, '.')[i])
    decreases |parts|
  {
    if |parts| > 1 {
      JoinedDigitsAlphabet(parts[1..]);
      var s := Join(parts, '.');
      var p, t := parts[0], Join(parts[1..], '.');
      assert s == p + ['.'] + t;
      forall i | 0 <= i < |s| ensures IsDigitOrDot(s[i]) {
        if i < |p| {
          assert s[i] == p[i] && IsDigit(p[i]);
        } else if i > |p| {
          assert s[i] == t[i - |p| - 1];
        }
      }
    }
  }

  /** An address's text is made of digits and dots only. */
  lemma TextAlphabet(ip: IpAddr)
    ensures forall i :: 0 <= i < |Text(ip)| ==> IsDigitOrDot(Text(ip)[i])
  {
    JoinedDigitsAlphabet([DecimalText(ip.a), DecimalText(ip.b), DecimalText(ip.c), DecimalText(ip.d)]);
  }

  /** An address's text is one non-empty word: it has no whitespace. */
  lemma TextIsOneWord(ip: IpAddr)
    ensures |Text(ip)| > 0 && NoWhitespace(Text(ip))
  {
    TextAlphabet(ip);
  }
}
