/**
  The dotted-quad IPv4 codec that PHP's `filter_var($ip, FILTER_VALIDATE_IP)`
  and `ip2long($ip)` provide to plugin/class-ip-validator.php: a text is an
  address when it is exactly four decimal groups separated by single dots, each
  group in 0..255 and written without leading zeros, with nothing else in the
  string; its value is the unsigned 32-bit number the four groups spell, most
  significant group first. That is what `ip2long` returns on a 64-bit PHP
  build; a 32-bit build returns the same bits as a signed integer, which is
  not modelled.
 */
module Ipv4 {
  import opened Wrappers
  import Strings

  /** 2^32: every address value lies below it. */
  const ADDRESS_SPACE: nat := 0x1_0000_0000

  predicate IsDigit(c: char) { '0' <= c <= '9' }

  predicate AllDigits(t: string) { forall i :: 0 <= i < |t| ==> IsDigit(t[i]) }

  function DigitValue(c: char): (d: nat)
    requires IsDigit(c)
    ensures d < 10
  {
    c as int - '0' as int
  }

  function DigitChar(d: nat): (c: char)
    requires d < 10
    ensures IsDigit(c) && DigitValue(c) == d
  {
    ('0' as int + d) as char
  }

  function Pow10(k: nat): nat { if k == 0 then 1 else 10 * Pow10(k - 1) }

  /** The number a string of decimal digits spells. */
  function DecimalValue(t: string): nat
    requires AllDigits(t)
    decreases |t|
  {
    if |t| == 0 then 0 else DecimalValue(t[..|t| - 1]) * 10 + DigitValue(t[|t| - 1])
  }

  /** One group of a dotted quad: digits only, no leading zero (a lone "0" is
      allowed), at most 255. */
  function ParseOctet(t: string): (r: Option<nat>)
    ensures r.Some? ==> r.value < 256
  {
    if |t| >= 1 && AllDigits(t) && (|t| == 1 || t[0] != '0') && DecimalValue(t) <= 255
    then Some(DecimalValue(t))
    else None
  }

  /** The canonical decimal text of a group value. */
  function FormatOctet(v: nat): (t: string)
    requires v < 256
  {
    if v < 10 then [DigitChar(v)]
    else if v < 100 then [DigitChar(v / 10), DigitChar(v % 10)]
    else [DigitChar(v / 100), DigitChar(v / 10 % 10), DigitChar(v % 10)]
  }

  /** The value of four groups, most significant first (what `ip2long`
      returns on a 64-bit PHP build). */
  function Combine(a: nat, b: nat, c: nat, d: nat): nat
  {
    ((a * 256 + b) * 256 + c) * 256 + d
  }

  /** The four groups of an address value, most significant first. */
  function Octets(n: nat): (q: seq<nat>)
    requires n < ADDRESS_SPACE
    ensures |q| == 4 && forall i :: 0 <= i < 4 ==> q[i] < 256
  {
    var m1 := n / 256;
    var m2 := m1 / 256;
    [m2 / 256, m2 % 256, m1 % 256, n % 256]
  }

  /** `filter_var` and `ip2long` in one: the value of a dotted quad, or None. */
  function ParseAddress(s: string): (r: Option<nat>)
    ensures r.Some? ==> r.value < ADDRESS_SPACE
  {
    var groups := Strings.Split(s, '.');
    if |groups| != 4 then None
    else
      match (ParseOctet(groups[0]), ParseOctet(groups[1]), ParseOctet(groups[2]), ParseOctet(groups[3]))
      case (Some(a), Some(b), Some(c), Some(d)) => Some(Combine(a, b, c, d))
      case _ => None
  }

  /** The canonical dotted-quad text of an address value (what `long2ip` returns). */
  function FormatAddress(n: nat): string
    requires n < ADDRESS_SPACE
  {
    var q := Octets(n);
    Strings.Join([FormatOctet(q[0]), FormatOctet(q[1]), FormatOctet(q[2]), FormatOctet(q[3])], '.')
  }

  // ---------------------------------------------------------------------------
  // Groups

  lemma DigitCharOfValue(c: char)
    requires IsDigit(c)
    ensures DigitChar(DigitValue(c)) == c
  {
  }

  lemma {:induction false} DecimalLowerBound(t: string)
    requires |t| >= 1 && AllDigits(t) && t[0] != '0'
    ensures DecimalValue(t) >= Pow10(|t| - 1)
    decreases |t|
  {
    var init := t[..|t| - 1];
    if |t| == 1 {
      assert init == [];
    } else {
      assert init[0] == t[0];
      assert AllDigits(init) by {
        forall i | 0 <= i < |init| ensures IsDigit(init[i]) { assert init[i] == t[i]; }
      }
      DecimalLowerBound(init);
    }
  }

  lemma {:induction false} Pow10AtLeastThousand(k: nat)
    requires k >= 3
    ensures Pow10(k) >= 1000
  {
    if k > 3 {
      Pow10AtLeastThousand(k - 1);
    }
  }

  lemma DecimalOfThree(t: string)
    requires |t| == 3 && AllDigits(t)
    ensures DecimalValue(t) == (DigitValue(t[0]) * 10 + DigitValue(t[1])) * 10 + DigitValue(t[2])
  {
    var init := t[..2];
    assert AllDigits(init) by {
      forall i | 0 <= i < 2 ensures IsDigit(init[i]) { assert init[i] == t[i]; }
    }
    DecimalOfTwo(init);
  }

  lemma DecimalOfTwo(t: string)
    requires |t| == 2 && AllDigits(t)
    ensures DecimalValue(t) == DigitValue(t[0]) * 10 + DigitValue(t[1])
  {
    var init := t[..1];
    assert AllDigits(init) by { assert init[0] == t[0]; }
    DecimalOfOne(init);
  }

  lemma DecimalOfOne(t: string)
    requires |t| == 1 && AllDigits(t)
    ensures DecimalValue(t) == DigitValue(t[0])
  {
    assert t[..0] == [];
  }

  /** An accepted group has one to three digits: the leading-zero rule and the
      bound 255 together rule out longer ones. */
  lemma OctetLength(t: string)
    requires ParseOctet(t).Some?
    ensures 1 <= |t| <= 3 && AllDigits(t)
  {
    if |t| >= 4 {
      DecimalLowerBound(t);
      Pow10AtLeastThousand(|t| - 1);
    }
  }

  lemma FormatOctetDigits(v: nat)
    requires v < 256
    ensures 1 <= |FormatOctet(v)| <= 3 && AllDigits(FormatOctet(v))
  {
  }

  /** A group value printed and read back is itself. */
  lemma OctetRoundTrip(v: nat)
    requires v < 256
    ensures ParseOctet(FormatOctet(v)) == Some(v)
  {
    var t := FormatOctet(v);
    FormatOctetDigits(v);
    if v < 10 {
      DecimalOfOne(t);
    } else if v < 100 {
      DecimalOfTwo(t);
      assert v == v / 10 * 10 + v % 10;
    } else {
      DecimalOfThree(t);
      assert v / 10 == v / 100 * 10 + v / 10 % 10;
      assert v == v / 10 * 10 + v % 10;
    }
  }

  /** A group is accepted only in its canonical spelling. */
  lemma OctetCanonical(t: string)
    requires ParseOctet(t).Some?
    ensures FormatOctet(ParseOctet(t).value) == t
  {
    OctetLength(t);
    var v := ParseOctet(t).value;
    if |t| == 1 {
      DecimalOfOne(t);
      DigitCharOfValue(t[0]);
    } else if |t| == 2 {
      DecimalOfTwo(t);
      DigitCharOfValue(t[0]);
      DigitCharOfValue(t[1]);
      assert v / 10 == DigitValue(t[0]) && v % 10 == DigitValue(t[1]);
    } else {
      DecimalOfThree(t);
      DigitCharOfValue(t[0]);
      DigitCharOfValue(t[1]);
      DigitCharOfValue(t[2]);
      assert v / 10 == DigitValue(t[0]) * 10 + DigitValue(t[1]);
      assert v / 100 == DigitValue(t[0]) && v / 10 % 10 == DigitValue(t[1]) && v % 10 == DigitValue(t[2]);
    }
  }

  // ---------------------------------------------------------------------------
  // Values

  lemma DivMod256(x: nat, y: nat)
    requires y < 256
    ensures (x * 256 + y) / 256 == x && (x * 256 + y) % 256 == y
  {
  }

  lemma OctetsOfCombine(a: nat, b: nat, c: nat, d: nat)
    requires a < 256 && b < 256 && c < 256 && d < 256
    ensures Combine(a, b, c, d) < ADDRESS_SPACE
    ensures Octets(Combine(a, b, c, d)) == [a, b, c, d]
  {
    var x1 := a * 256 + b;
    var x2 := x1 * 256 + c;
    var n := x2 * 256 + d;
    assert Combine(a, b, c, d) == n;
    assert x1 < 0x1_0000 && x2 < 0x100_0000;
    DivMod256(x2, d);
    DivMod256(x1, c);
    DivMod256(a, b);
    assert n / 256 == x2 && x2 / 256 == x1;
  }

  lemma CombineOfOctets(n: nat)
    requires n < ADDRESS_SPACE
    ensures var q := Octets(n); Combine(q[0], q[1], q[2], q[3]) == n
  {
    var m1 := n / 256;
    var m2 := m1 / 256;
    assert m2 == m2 / 256 * 256 + m2 % 256;
    assert m1 == m2 * 256 + m1 % 256;
    assert n == m1 * 256 + n % 256;
  }

  // ---------------------------------------------------------------------------
  // Addresses

  /** Every address value prints to a text that parses back to it. */
  lemma AddressRoundTrip(n: nat)
    requires n < ADDRESS_SPACE
    ensures ParseAddress(FormatAddress(n)) == Some(n)
  {
    var q := Octets(n);
    var groups := [FormatOctet(q[0]), FormatOctet(q[1]), FormatOctet(q[2]), FormatOctet(q[3])];
    forall i | 0 <= i < 4 ensures '.' !in groups[i] && ParseOctet(groups[i]) == Some(q[i]) {
      FormatOctetDigits(q[i]);
      OctetRoundTrip(q[i]);
    }
    Strings.SplitJoin(groups, '.');
    CombineOfOctets(n);
  }

  /** An accepted text is the canonical text of its value: there is no second
      spelling of an address (no leading zeros, no padding, no other radix). */
  lemma AddressCanonical(s: string)
    requires ParseAddress(s).Some?
    ensures FormatAddress(ParseAddress(s).value) == s
  {
    var groups := Strings.Split(s, '.');
    var a, b, c, d := ParseOctet(groups[0]).value, ParseOctet(groups[1]).value,
                      ParseOctet(groups[2]).value, ParseOctet(groups[3]).value;
    OctetsOfCombine(a, b, c, d);
    OctetCanonical(groups[0]);
    OctetCanonical(groups[1]);
    OctetCanonical(groups[2]);
    OctetCanonical(groups[3]);
    assert [FormatOctet(a), FormatOctet(b), FormatOctet(c), FormatOctet(d)] == groups;
    Strings.JoinSplit(s, '.');
  }

  /** Two accepted texts with the same value are the same text. */
  lemma AddressInjective(s: string, t: string)
    requires ParseAddress(s).Some? && ParseAddress(t).Some?
    requires ParseAddress(s).value == ParseAddress(t).value
    ensures s == t
  {
    AddressCanonical(s);
    AddressCanonical(t);
  }

  /** An accepted text holds only digits and dots. */
  lemma AddressAlphabet(s: string, c: char)
    requires ParseAddress(s).Some? && c in s
    ensures IsDigit(c) || c == '.'
  {
    var n := ParseAddress(s).value;
    AddressCanonical(s);
    var q := Octets(n);
    var groups := [FormatOctet(q[0]), FormatOctet(q[1]), FormatOctet(q[2]), FormatOctet(q[3])];
    Strings.JoinChars(groups, '.', c);
    if c != '.' {
      var i :| 0 <= i < 4 && c in groups[i];
      FormatOctetDigits(q[i]);
    }
  }
}
